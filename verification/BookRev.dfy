/** The reversed layout: the best level comes last. It works on the same book set. */
module BookRev {
  import opened Levels
  import opened Book
  import opened BookRuns

  function Mirror<T>(s: seq<T>): (r: seq<T>)
    ensures |r| == |s| && forall k | 0 <= k < |s| :: r[k] == s[|s| - 1 - k]
  {
    seq(|s|, k requires 0 <= k < |s| => s[|s| - 1 - k])
  }

  function MirrorAll(cells: seq<seq<Level>>): (r: seq<seq<Level>>)
    ensures |r| == |cells| && forall c | 0 <= c < |cells| :: r[c] == Mirror(cells[c])
  {
    seq(|cells|, c requires 0 <= c < |cells| => Mirror(cells[c]))
  }

  lemma MirrorAllUpdate(cells: seq<seq<Level>>, c: nat, lv: seq<Level>)
    requires c < |cells|
    ensures MirrorAll(cells[c := lv]) == MirrorAll(cells)[c := Mirror(lv)]
  {
  }

  /** Every side the other way round; the counters as they are. */
  function Mirrored(b: State): State {
    State(MirrorAll(b.cells), b.st)
  }

  lemma MirrorRemove(lv: seq<Level>, i: nat)
    requires i < |lv|
    ensures Mirror(RemoveAt(lv, |lv| - 1 - i)) == RemoveAt(Mirror(lv), i)
  {
  }

  lemma MirrorInsert(lv: seq<Level>, i: nat, l: Level)
    requires i <= |lv|
    ensures Mirror(InsertAt(lv, |lv| - i, l)) == InsertAt(Mirror(lv), i, l)
  {
  }

  /** Drop the first level and put a new one between the j - 1 that follow and the rest. */
  function ShiftIn(lv: seq<Level>, j: nat, l: Level): seq<Level>
    requires 0 < j <= |lv|
  {
    lv[1..j] + [l] + lv[j..]
  }

  lemma MirrorShift(lv: seq<Level>, j: nat, l: Level)
    requires 0 < j <= |lv|
    ensures Mirror(ShiftIn(lv, j, l)) == InsertAt(Mirror(lv)[..|lv| - 1], |lv| - j, l)
  {
    var a, b := Mirror(ShiftIn(lv, j, l)), InsertAt(Mirror(lv)[..|lv| - 1], |lv| - j, l);
    forall k | 0 <= k < |lv|
      ensures a[k] == b[k]
    {
      ShiftElement(lv, j, l, |lv| - 1 - k);
      InsertElement(Mirror(lv)[..|lv| - 1], |lv| - j, l, k);
    }
  }

  /** The search from the best end: how many levels are not better than `price`. */
  method RevSearch(bs: BookSet, c: nat, side: Side, price: Price) returns (j: nat)
    requires bs.Valid() && c < CELLS
    ensures j <= |bs.cells[c]| && |bs.cells[c]| - j == Cut(side, Mirror(bs.cells[c]), price)
  {
    ghost var lv, best := bs.cells[c], Mirror(bs.cells[c]);
    var key := Key(side, price);
    j := bs.n[c];
    while j > 0 && Key(side, bs.level[Base(c) + j - 1].price) < key
      invariant j <= |lv|
      invariant forall k | 0 <= k < |lv| - j :: Key(side, best[k].price) < key
    {
      assert bs.level[Base(c) + (j - 1)] == lv[j - 1] == best[|lv| - j];
      j := j - 1;
    }
    if j > 0 {
      assert bs.level[Base(c) + (j - 1)] == lv[j - 1] == best[|lv| - j];
    }
    CutUnique(side, best, price, |lv| - j);
  }

  /** The full array: the worst level, lv[0], makes room. Better levels stay where they are. */
  method RevEvict(bs: BookSet, c: nat, j: nat, l: Level)
    requires bs.Valid() && c < CELLS && 0 < j <= bs.n[c]
    modifies bs`cells, bs.level
    ensures bs.Valid() && bs.cells == old(bs.cells)[c := ShiftIn(old(bs.cells[c]), j, l)]
  {
    ghost var lv, before := bs.cells[c], bs.level[..];
    bs.Memmove(Base(c), Base(c) + 1, j - 1);
    bs.level[Base(c) + j - 1] := l;
    forall e | 0 <= e < CELLS && e != c ensures bs.Holds(e, bs.cells[e]) {
      bs.OthersHold(c, e, bs.cells[e], before);
    }
    forall k | 0 <= k < |lv|
      ensures bs.level[Base(c) + k] == ShiftIn(lv, j, l)[k]
    {
      ShiftElement(lv, j, l, k);
    }
    assert bs.Holds(c, ShiftIn(lv, j, l));
    bs.cells := bs.cells[c := ShiftIn(lv, j, l)];
  }

  lemma ShiftElement(lv: seq<Level>, j: nat, l: Level, k: nat)
    requires 0 < j <= |lv| && k < |lv|
    ensures |ShiftIn(lv, j, l)| == |lv|
    ensures ShiftIn(lv, j, l)[k] == if k < j - 1 then lv[k + 1] else if k == j - 1 then l else lv[k]
  {
  }

  /** The branch for a new price. */
  method RevAdd(bs: BookSet, u: Update, c: nat, j: nat) returns (counted: bool, ghost o: Outcome)
    requires bs.Valid() && c < CELLS && u.size != 0 && j <= |bs.cells[c]|
    requires |bs.cells[c]| - j == Cut(u.side, Mirror(bs.cells[c]), u.price) &&
             !Listed(u.side, Mirror(bs.cells[c]), u.price)
    modifies bs, bs.n, bs.level
    ensures bs.Valid()
    ensures o == OutcomeOf(u.side, Mirror(old(bs.cells[c])), u.price, u.size)
    ensures |bs.cells| == CELLS && bs.cells == old(bs.cells)[c := bs.cells[c]]
    ensures Mirror(bs.cells[c]) == Edit(o, Mirror(old(bs.cells[c])), |old(bs.cells[c])| - j, Level(u.price, u.size))
    ensures bs.st == Kinds(old(bs.st), o) && counted == Counted(o)
  {
    ghost var lv := bs.cells[c];
    var l := Level(u.price, u.size);
    if bs.n[c] == BOOK_MAX_LEVELS {
      bs.st := bs.st.(overflow := bs.st.overflow + 1);
      if j == 0 {
        return false, Rejected;
      }
      MirrorShift(lv, j, l);
      RevEvict(bs, c, j, l);
      o := Evicted;
    } else {
      assert lv[..|lv|] == lv;
      MirrorInsert(lv, |lv| - j, l);
      bs.Insert(c, bs.n[c], j, l);
      o := Inserted;
    }
    bs.st := bs.st.(inserted := bs.st.inserted + 1);
    return true, o;
  }

  /** The size-0 branch: lv[j - 1] goes, and only the levels better than it move. */
  method RevDelete(bs: BookSet, u: Update, c: nat, j: nat, found: bool) returns (counted: bool, ghost o: Outcome)
    requires bs.Valid() && c < CELLS && u.size == 0 && j <= |bs.cells[c]|
    requires |bs.cells[c]| - j == Cut(u.side, Mirror(bs.cells[c]), u.price) &&
             found == Listed(u.side, Mirror(bs.cells[c]), u.price)
    modifies bs, bs.n, bs.level
    ensures bs.Valid()
    ensures o == OutcomeOf(u.side, Mirror(old(bs.cells[c])), u.price, u.size)
    ensures |bs.cells| == CELLS && bs.cells == old(bs.cells)[c := bs.cells[c]]
    ensures Mirror(bs.cells[c]) == Edit(o, Mirror(old(bs.cells[c])), |old(bs.cells[c])| - j, Level(u.price, u.size))
    ensures bs.st == Kinds(old(bs.st), o) && counted == Counted(o)
  {
    if !found {
      bs.st := bs.st.(deleteMissing := bs.st.deleteMissing + 1);
      return false, DeleteMissing;
    }
    MirrorRemove(bs.cells[c], |bs.cells[c]| - j);
    bs.Remove(c, j - 1);
    bs.st := bs.st.(deleted := bs.st.deleted + 1);
    return true, Deleted;
  }

  method RevChange(bs: BookSet, u: Update, c: nat) returns (counted: bool, ghost o: Outcome)
    requires bs.Valid() && c < CELLS
    modifies bs, bs.n, bs.level
    ensures bs.Valid()
    ensures o == OutcomeOf(u.side, Mirror(old(bs.cells[c])), u.price, u.size)
    ensures |bs.cells| == CELLS && bs.cells == old(bs.cells)[c := bs.cells[c]]
    ensures var lv := Mirror(old(bs.cells[c]));
            Mirror(bs.cells[c]) == Edit(o, lv, Cut(u.side, lv, u.price), Level(u.price, u.size))
    ensures bs.st == Kinds(old(bs.st), o) && counted == Counted(o)
  {
    ghost var lv := bs.cells[c];
    var j := RevSearch(bs, c, u.side, u.price);
    assert j > 0 ==> bs.level[Base(c) + (j - 1)] == lv[j - 1] == Mirror(lv)[|lv| - j];
    var found := j > 0 && bs.level[Base(c) + j - 1].price == u.price;
    if u.size == 0 {
      counted, o := RevDelete(bs, u, c, j, found);
    } else if found {
      MirrorStore(lv, j, Level(u.price, u.size));
      bs.Store(c, j - 1, Level(u.price, u.size));
      bs.st := bs.st.(updated := bs.st.updated + 1);
      return true, Updated;
    } else {
      counted, o := RevAdd(bs, u, c, j);
    }
  }

  lemma MirrorStore(lv: seq<Level>, j: nat, l: Level)
    requires 0 < j <= |lv|
    ensures Mirror(lv[j - 1 := l]) == Mirror(lv)[|lv| - j := l]
  {
  }

  /** The reversed book does to the mirrored books exactly what the forward book does to the books. */
  method RevApply(bs: BookSet, u: Update)
    requires bs.Valid() && u.sym < MAX_SYMBOLS && HasKey(u.side, u.price)
    modifies bs, bs.n, bs.level
    ensures bs.Valid()
    ensures Mirrored(bs.Snapshot()) == Applied(Mirrored(old(bs.Snapshot())), u)
  {
    var c := Cell(u.sym, u.side);
    ghost var before := bs.cells;
    ApplyIsEdit(u.side, Mirror(before[c]), u.price, u.size);
    var counted, o := RevChange(bs, u, c);
    bs.st := bs.st.(applied := bs.st.applied + 1);
    if counted && bs.n[c] > bs.st.maxDepth {
      bs.st := bs.st.(maxDepth := bs.n[c]);
    }
    MirrorAllUpdate(before, c, bs.cells[c]);
  }

  method RevBestBidOffer(bs: BookSet, sym: nat) returns (bbo: Bbo)
    requires bs.Valid() && sym < MAX_SYMBOLS
    ensures bbo == BboOf(Mirror(bs.cells[Cell(sym, Bid)]), Mirror(bs.cells[Cell(sym, Ask)]))
  {
    var cb, ca := Cell(sym, Bid), Cell(sym, Ask);
    var nb, na := bs.n[cb], bs.n[ca];
    var bid := if nb > 0 then bs.level[Base(cb) + (nb - 1)] else Level(0, 0);
    var ask := if na > 0 then bs.level[Base(ca) + (na - 1)] else Level(0, 0);
    bbo := Bbo(nb > 0, bid.price, bid.size, na > 0, ask.price, ask.size);
    assert nb > 0 ==> bid == bs.cells[cb][nb - 1] == Mirror(bs.cells[cb])[0];
    assert na > 0 ==> ask == bs.cells[ca][na - 1] == Mirror(bs.cells[ca])[0];
  }

  /** Every side of `a` is the mirror image of the same side of `b`, and all counters agree. */
  ghost predicate Twins(a: BookSet, b: BookSet)
    reads a, a.n, a.level, b, b.n, b.level
  {
    && a != b && a.n != b.n && a.level != b.level
    && a.Valid() && b.Valid() && a.Snapshot() == Mirrored(b.Snapshot())
  }

  /** The best bid and offer of the symbol just updated. */
  function LastBbo(us: seq<Update>): Bbo
    requires InRange(us) && us != []
  {
    var sym, cells := us[|us| - 1].sym, RunAll(us).cells;
    BboOf(cells[Cell(sym, Bid)], cells[Cell(sym, Ask)])
  }

  /** That after each update of a run. */
  function BboTrace(us: seq<Update>): (trace: seq<Bbo>)
    requires InRange(us)
    ensures |trace| == |us|
  {
    if us == [] then [] else BboTrace(us[..|us| - 1]) + [LastBbo(us)]
  }

  lemma {:induction false} TraceAt(us: seq<Update>, i: nat)
    requires InRange(us) && i < |us|
    ensures InRange(us[..i + 1]) && BboTrace(us)[i] == LastBbo(us[..i + 1])
    decreases |us|
  {
    var init := us[..|us| - 1];
    if i < |init| {
      TraceAt(init, i);
      assert init[..i + 1] == us[..i + 1];
    } else {
      assert us[..i + 1] == us;
    }
  }

  /** Entry i of the trace, while the dicts fit: best price and size of the symbol's dicts after i + 1 updates. */
  lemma {:induction false} TraceShows(us: seq<Update>, i: nat)
    requires InRange(us) && i < |us|
    requires var sym := us[i].sym;
             NeverFull(Changes(us[..i + 1], Cell(sym, Bid))) && NeverFull(Changes(us[..i + 1], Cell(sym, Ask)))
    ensures var sym, bbo := us[i].sym, BboTrace(us)[i];
            var bids := DictRun(Changes(us[..i + 1], Cell(sym, Bid)));
            var asks := DictRun(Changes(us[..i + 1], Cell(sym, Ask)));
            && (bbo.hasBid <==> bids != map[]) && (bbo.hasAsk <==> asks != map[])
            && (bbo.hasBid ==> IsBest(Bid, bids, bbo.bidPx) && bids[bbo.bidPx] == bbo.bidSz)
            && (bbo.hasAsk ==> IsBest(Ask, asks, bbo.askPx) && asks[bbo.askPx] == bbo.askSz)
  {
    TraceAt(us, i);
    BboIsBest(us[..i + 1], us[i].sym);
  }

  /** One update on both, and what both show after it. */
  method UpdateBoth(a: BookSet, b: BookSet, u: Update) returns (x: Bbo, y: Bbo)
    requires Twins(a, b) && u.sym < MAX_SYMBOLS && HasKey(u.side, u.price)
    modifies a, a.n, a.level, b, b.n, b.level
    ensures Twins(a, b) && a.Snapshot() == Applied(old(a.Snapshot()), u)
    ensures x == y == BboOf(a.cells[Cell(u.sym, Bid)], a.cells[Cell(u.sym, Ask)])
  {
    a.Apply(u);
    RevApply(b, u);
    assert a.cells == MirrorAll(b.cells);
    x := a.BestBidOffer(u.sym);
    y := RevBestBidOffer(b, u.sym);
  }

  /** The comparison of one side, level by level. */
  method SameSide(a: BookSet, b: BookSet, c: nat) returns (same: bool)
    requires Twins(a, b) && c < CELLS
    ensures same
  {
    assert a.cells[c] == MirrorAll(b.cells)[c] == Mirror(b.cells[c]);
    same := a.n[c] == b.n[c];
    for k := 0 to a.n[c]
      invariant same
    {
      assert a.level[Base(c) + k] == a.cells[c][k];
      assert b.level[Base(c) + (b.n[c] - 1 - k)] == b.cells[c][b.n[c] - 1 - k];
      same := same && a.level[Base(c) + k] == b.level[Base(c) + (b.n[c] - 1 - k)];
    }
  }

  ghost predicate HaveKeys(us: seq<Update>) {
    forall i | 0 <= i < |us| :: HasKey(us[i].side, us[i].price)
  }

  /** Both books from the start, one update after the other. */
  method RunBoth(a: BookSet, b: BookSet, updates: seq<Update>)
    returns (ok: bool, forward: seq<Bbo>, reversed: seq<Bbo>)
    requires InRange(updates) && HaveKeys(updates)
    requires Twins(a, b) && a.Snapshot() == RunAll([])
    modifies a, a.n, a.level, b, b.n, b.level
    ensures Twins(a, b) && a.Snapshot() == RunAll(updates)
    ensures ok && forward == BboTrace(updates) && reversed == BboTrace(updates)
  {
    ok, forward, reversed := true, [], [];
    for i := 0 to |updates|
      invariant Twins(a, b) && a.Snapshot() == RunAll(updates[..i])
      invariant ok && forward == BboTrace(updates[..i]) && reversed == BboTrace(updates[..i])
    {
      assert updates[..i + 1][..i] == updates[..i];
      var x, y := UpdateBoth(a, b, updates[i]);
      ok, forward, reversed := ok && x == y, forward + [x], reversed + [y];
    }
    assert updates[..|updates|] == updates;
  }

  /** The final comparison: every side of both books, then the counters. */
  method SameBooks(a: BookSet, b: BookSet) returns (same: bool)
    requires Twins(a, b)
    ensures same
  {
    same := true;
    for c := 0 to CELLS
      invariant same
    {
      var one := SameSide(a, b, c);
      same := same && one;
    }
    same := same && a.st == b.st;
  }

  /**
    * Both books side by side, as the layout benchmark's check mode runs them: after every update of every run, with
    * or without overflow, both show the best bid and offer of the books that the run makes; at the end all counters
    * agree and every side of one is the mirror image of the other.
    */
  method TwinCheck(updates: seq<Update>) returns (ok: bool, forward: seq<Bbo>, reversed: seq<Bbo>)
    requires InRange(updates) && HaveKeys(updates)
    ensures forward == BboTrace(updates) && reversed == BboTrace(updates)
    ensures ok
  {
    var a := new BookSet();
    var b := new BookSet();
    assert MirrorAll(NoLevels()) == NoLevels();
    ok, forward, reversed := RunBoth(a, b, updates);
    var same := SameBooks(a, b);
    ok := ok && same;
  }
}
