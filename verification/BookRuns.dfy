/** The book set over whole runs of updates. */
module BookRuns {
  import opened Levels
  import opened Book

  ghost predicate InRange(us: seq<Update>) {
    forall i | 0 <= i < |us| :: us[i].sym < MAX_SYMBOLS
  }

  /** The book set after a run, from empty books. */
  function RunAll(us: seq<Update>): (b: State)
    requires InRange(us)
    ensures |b.cells| == CELLS
  {
    if us == [] then State(NoLevels(), NO_STATS) else Applied(RunAll(us[..|us| - 1]), us[|us| - 1])
  }

  function SideOf(c: nat): Side {
    if c % 2 == 0 then Bid else Ask
  }

  /** The updates that concern one side, in order. */
  function Changes(us: seq<Update>, c: nat): seq<Change> {
    if us == [] then [] else
      var u, before := us[|us| - 1], Changes(us[..|us| - 1], c);
      if Cell(u.sym, u.side) == c then before + [Change(u.price, u.size)] else before
  }

  lemma SideOfCell(sym: nat, side: Side)
    ensures SideOf(Cell(sym, side)) == side
  {
  }

  /** There is a side for each of the 9216 symbols' two, and no other. */
  lemma CellOfSide(c: nat)
    ensures c < CELLS <==> c / 2 < 9216
    ensures Cell(c / 2, SideOf(c)) == c
  {
  }

  lemma {:induction false} ChangesLast(us: seq<Update>, c: nat)
    requires us != []
    ensures var u, before := us[|us| - 1], Changes(us[..|us| - 1], c);
            Changes(us, c) == if Cell(u.sym, u.side) == c then before + [Change(u.price, u.size)] else before
  {
  }

  /** Every side evolves on its own: other symbols and the other side do not matter. */
  lemma {:induction false} SidesIndependent(us: seq<Update>, c: nat)
    requires InRange(us) && c < CELLS
    ensures RunAll(us).cells[c] == Run(SideOf(c), Changes(us, c))
  {
    if us != [] {
      var u, init := us[|us| - 1], us[..|us| - 1];
      SidesIndependent(init, c);
      ChangesLast(us, c);
      SideOfCell(u.sym, u.side);
      RunLast(SideOf(c), Changes(init, c), Change(u.price, u.size));
    }
  }

  /** While the dict of a side fits, the side is the dict's entries best first, and its front the dict's best. */
  lemma BooksAreDicts(us: seq<Update>, c: nat)
    requires InRange(us) && c < CELLS && NeverFull(Changes(us, c))
    ensures Represents(SideOf(c), RunAll(us).cells[c], DictRun(Changes(us, c)))
    ensures SameBest(SideOf(c), RunAll(us).cells[c], DictRun(Changes(us, c)))
  {
    SidesIndependent(us, c);
    RunRepresents(SideOf(c), Changes(us, c));
    RepresentsBest(SideOf(c), RunAll(us).cells[c], DictRun(Changes(us, c)));
  }

  lemma NeverFullLast(run: seq<Change>, last: Change)
    ensures NeverFull(run + [last]) <==>
            NeverFull(run) && |DictApply(DictRun(run), last.price, last.size)| <= BOOK_MAX_LEVELS
  {
    RunLast(Bid, run, last);
    assert (run + [last])[..|run|] == run;
  }

  /** The update on which the dict of a side first outgrows the array is one that overflows. */
  lemma {:induction false} FirstOverflow(us: seq<Update>)
    requires InRange(us) && us != []
    ensures var u, init := us[|us| - 1], us[..|us| - 1];
            var c := Cell(u.sym, u.side);
            NeverFull(Changes(init, c)) ==>
              (NeverFull(Changes(us, c)) <==> !Overflows(OutcomeOf(u.side, RunAll(init).cells[c], u.price, u.size)))
  {
    var u, init := us[|us| - 1], us[..|us| - 1];
    var c := Cell(u.sym, u.side);
    if NeverFull(Changes(init, c)) {
      ChangesLast(us, c);
      SideOfCell(u.sym, u.side);
      BooksAreDicts(init, c);
      OverflowIff(u.side, RunAll(init).cells[c], DictRun(Changes(init, c)), u.price, u.size);
      NeverFullLast(Changes(init, c), Change(u.price, u.size));
    }
  }

  ghost predicate AllFit(us: seq<Update>) {
    forall c | 0 <= c < CELLS :: NeverFull(Changes(us, c))
  }

  /** The overflow counter is 0 exactly if the dict of no side ever outgrew the array. */
  lemma {:induction false} OverflowCounts(us: seq<Update>)
    requires InRange(us)
    ensures RunAll(us).st.overflow == 0 <==> AllFit(us)
  {
    if us == [] {
      assert forall c :: Changes(us, c) == [];
    } else {
      var u, init := us[|us| - 1], us[..|us| - 1];
      OverflowCounts(init);
      FirstOverflow(us);
      AllFitLast(us);
      CountOverflow(RunAll(init), u);
    }
  }

  lemma CountOverflow(b: State, u: Update)
    requires |b.cells| == CELLS && u.sym < MAX_SYMBOLS
    ensures Applied(b, u).st.overflow ==
            b.st.overflow + if Overflows(OutcomeOf(u.side, b.cells[Cell(u.sym, u.side)], u.price, u.size)) then 1 else 0
  {
  }

  lemma {:induction false} AllFitLast(us: seq<Update>)
    requires InRange(us) && us != []
    ensures var u, init := us[|us| - 1], us[..|us| - 1];
            AllFit(us) <==> AllFit(init) && NeverFull(Changes(us, Cell(u.sym, u.side)))
  {
    var u, init := us[|us| - 1], us[..|us| - 1];
    forall e | 0 <= e < CELLS
      ensures Changes(us, e) == Changes(init, e) ||
              (e == Cell(u.sym, u.side) && (NeverFull(Changes(us, e)) ==> NeverFull(Changes(init, e))))
    {
      ChangesLast(us, e);
      NeverFullLast(Changes(init, e), Change(u.price, u.size));
    }
  }

  // Level conservation.

  function Total(cells: seq<seq<Level>>): nat {
    if cells == [] then 0 else Total(cells[..|cells| - 1]) + |cells[|cells| - 1]|
  }

  lemma {:induction false} TotalUpdate(cells: seq<seq<Level>>, c: nat, lv: seq<Level>)
    requires c < |cells|
    ensures Total(cells[c := lv]) == Total(cells) - |cells[c]| + |lv|
  {
    var n := |cells| - 1;
    var cells' := cells[c := lv];
    if c == n {
      assert cells'[..n] == cells[..n];
    } else {
      TotalUpdate(cells[..n], c, lv);
      assert cells'[..n] == cells[..n][c := lv];
    }
  }

  lemma {:induction false} TotalOfNone(cells: seq<seq<Level>>)
    requires forall c | 0 <= c < |cells| :: cells[c] == []
    ensures Total(cells) == 0
  {
    if cells != [] {
      TotalOfNone(cells[..|cells| - 1]);
    }
  }

  /** What the counters say the books hold. */
  function Balance(st: Stats): int {
    st.applied - st.updated - 2 * st.deleted - st.deleteMissing - st.overflow
  }

  lemma OneUpdate(b: State, u: Update)
    requires |b.cells| == CELLS && u.sym < MAX_SYMBOLS && |b.cells[Cell(u.sym, u.side)]| <= BOOK_MAX_LEVELS
    ensures Total(Applied(b, u).cells) - Total(b.cells) == Balance(Applied(b, u).st) - Balance(b.st)
    ensures |Applied(b, u).cells[Cell(u.sym, u.side)]| <= BOOK_MAX_LEVELS
  {
    var c := Cell(u.sym, u.side);
    ApplyIsEdit(u.side, b.cells[c], u.price, u.size);
    TotalUpdate(b.cells, c, Levels.Apply(u.side, b.cells[c], u.price, u.size));
  }

  /**
    * Over every run, overflow or not, the levels held are exactly applied - updated - 2 deleted - delete_missing
    * - overflow, and no side ever holds more than 64.
    */
  lemma {:induction false} Conservation(us: seq<Update>)
    requires InRange(us)
    ensures Total(RunAll(us).cells) == Balance(RunAll(us).st)
    ensures forall c | 0 <= c < CELLS :: |RunAll(us).cells[c]| <= BOOK_MAX_LEVELS
  {
    if us == [] {
      TotalOfNone(NoLevels());
    } else {
      Conservation(us[..|us| - 1]);
      OneUpdate(RunAll(us[..|us| - 1]), us[|us| - 1]);
    }
  }

  /**
    * New levels that found no room on a full side: what is left of the updates after all that changed or missed a
    * level.
    */
  function Refused(st: Stats): int {
    st.applied - st.inserted - st.updated - st.deleted - st.deleteMissing
  }

  lemma OneKind(b: State, u: Update)
    requires |b.cells| == CELLS && u.sym < MAX_SYMBOLS && |b.cells[Cell(u.sym, u.side)]| <= BOOK_MAX_LEVELS
    ensures var st, st' := b.st, Applied(b, u).st;
            var o := OutcomeOf(u.side, b.cells[Cell(u.sym, u.side)], u.price, u.size);
            && st'.applied == st.applied + 1
            && Refused(st') == Refused(st) + (if o.Rejected? then 1 else 0)
            && (st'.overflow - Refused(st')) == (st.overflow - Refused(st)) + (if o.Evicted? then 1 else 0)
  {
  }

  lemma {:induction false} KindsAddUp(us: seq<Update>)
    requires InRange(us)
    ensures var st := RunAll(us).st;
            st.applied == |us| && 0 <= Refused(st) <= st.overflow
  {
    if us != [] {
      var n := |us| - 1;
      KindsAddUp(us[..n]);
      Conservation(us[..n]);
      OneKind(RunAll(us[..n]), us[n]);
    }
  }

  /**
    * The counters add up: every update is applied, an overflow is a refusal or an eviction, and the levels held are
    * those inserted, less those deleted, less those evicted.
    */
  lemma {:induction false} CountersAddUp(us: seq<Update>)
    requires InRange(us)
    ensures var st := RunAll(us).st;
            && st.applied == |us| && 0 <= Refused(st) <= st.overflow
            && Total(RunAll(us).cells) == st.inserted - st.deleted - (st.overflow - Refused(st))
  {
    KindsAddUp(us);
    Conservation(us);
  }

  // The counters against the prices there are.

  /** What an update does to a side with these levels: the price is among them or not. */
  lemma {:induction false} KindOfUpdate(b: State, u: Update)
    requires |b.cells| == CELLS && u.sym < MAX_SYMBOLS && Ok(u.side, b.cells[Cell(u.sym, u.side)])
    ensures var lv, st, st' := b.cells[Cell(u.sym, u.side)], b.st, Applied(b, u).st;
            var had, full := HasPrice(lv, u.price), |lv| == BOOK_MAX_LEVELS;
            var worst := forall i | 0 <= i < |lv| :: Key(u.side, lv[i].price) < Key(u.side, u.price);
            && st'.applied == st.applied + 1
            && st'.deleteMissing == st.deleteMissing + (if u.size == 0 && !had then 1 else 0)
            && st'.deleted == st.deleted + (if u.size == 0 && had then 1 else 0)
            && st'.updated == st.updated + (if u.size != 0 && had then 1 else 0)
            && st'.inserted == st.inserted + (if u.size != 0 && !had && !(full && worst) then 1 else 0)
            && st'.overflow == st.overflow + if u.size != 0 && !had && full then 1 else 0
  {
    CutFits(u.side, b.cells[Cell(u.sym, u.side)], u.price);
  }

  /** The levels of its side when the i-th update of a run comes. */
  function SideBefore(us: seq<Update>, i: nat): seq<Level>
    requires i < |us|
  {
    Run(us[i].side, Changes(us[..i], Cell(us[i].sym, us[i].side)))
  }

  /** Its kind, told by the prices among those levels. */
  ghost function KindAt(us: seq<Update>, i: nat): Outcome
    requires i < |us|
  {
    var lv, u := SideBefore(us, i), us[i];
    if u.size == 0 then if HasPrice(lv, u.price) then Deleted else DeleteMissing
    else if HasPrice(lv, u.price) then Updated
    else if |lv| < 64 then Inserted
    else if forall k | 0 <= k < |lv| :: Key(u.side, lv[k].price) < Key(u.side, u.price) then Rejected
    else Evicted
  }

  /** How many updates of a run are of a kind. */
  ghost function HowMany(us: seq<Update>, kind: Outcome): nat {
    if us == [] then 0 else
      var n := |us| - 1;
      HowMany(us[..n], kind) + if KindAt(us, n) == kind then 1 else 0
  }

  lemma {:induction false} KindNext(us: seq<Update>)
    requires InRange(us) && us != []
    ensures var st, st', kind := RunAll(us[..|us| - 1]).st, RunAll(us).st, KindAt(us, |us| - 1);
            && st'.applied == st.applied + 1
            && st'.deleteMissing == st.deleteMissing + (if kind.DeleteMissing? then 1 else 0)
            && st'.deleted == st.deleted + (if kind.Deleted? then 1 else 0)
            && st'.updated == st.updated + (if kind.Updated? then 1 else 0)
            && st'.inserted == st.inserted + (if kind.Inserted? || kind.Evicted? then 1 else 0)
            && st'.overflow == st.overflow + if kind.Evicted? || kind.Rejected? then 1 else 0
  {
    var u, init := us[|us| - 1], us[..|us| - 1];
    var c := Cell(u.sym, u.side);
    SideOfCell(u.sym, u.side);
    SidesIndependent(init, c);
    RunOk(u.side, Changes(init, c));
    KindOfUpdate(RunAll(init), u);
  }

  /**
    * Over every run, overflow or not, each counter is the number of updates of its kind. A level that evicts another is
    * both inserted and overflow.
    */
  lemma {:induction false} CountersAreKinds(us: seq<Update>)
    requires InRange(us)
    ensures var st := RunAll(us).st;
            && st.applied == |us| && st.deleteMissing == HowMany(us, DeleteMissing)
            && st.deleted == HowMany(us, Deleted) && st.updated == HowMany(us, Updated)
            && st.inserted == HowMany(us, Inserted) + HowMany(us, Evicted)
            && st.overflow == HowMany(us, Evicted) + HowMany(us, Rejected)
  {
    if us != [] {
      CountersAreKinds(us[..|us| - 1]);
      KindNext(us);
    }
  }

  /** What an update does to the dict of its side. */
  datatype Fate = Missed | Removed | Changed | New

  function FateOf(m: Dict, p: int, size: nat): Fate {
    if size == 0 then if p in m then Removed else Missed else if p in m then Changed else New
  }

  /** The fate of the i-th update of a run. */
  function FateAt(us: seq<Update>, i: nat): Fate
    requires i < |us|
  {
    FateOf(DictRun(Changes(us[..i], Cell(us[i].sym, us[i].side))), us[i].price, us[i].size)
  }

  /** How many updates of a run had it. */
  function Fates(us: seq<Update>, fate: Fate): nat {
    if us == [] then 0 else
      var n := |us| - 1;
      Fates(us[..n], fate) + if FateAt(us, n) == fate then 1 else 0
  }

  lemma {:induction false} KindIsFate(us: seq<Update>)
    requires InRange(us) && us != [] && AllFit(us) && AllFit(us[..|us| - 1])
    ensures var st, st', fate := RunAll(us[..|us| - 1]).st, RunAll(us).st, FateAt(us, |us| - 1);
            && st'.deleteMissing == st.deleteMissing + (if fate.Missed? then 1 else 0)
            && st'.deleted == st.deleted + (if fate.Removed? then 1 else 0)
            && st'.updated == st.updated + (if fate.Changed? then 1 else 0)
            && st'.inserted == st.inserted + (if fate.New? then 1 else 0)
            && st'.overflow == st.overflow
  {
    var u, init := us[|us| - 1], us[..|us| - 1];
    var c := Cell(u.sym, u.side);
    SideOfCell(u.sym, u.side);
    BooksAreDicts(init, c);
    FirstOverflow(us);
    CountOverflow(RunAll(init), u);
    KindOfUpdate(RunAll(init), u);
  }

  /** On every run on which all dicts fit, the counters count what became of the prices of the dicts. */
  lemma {:induction false} CountersAreFates(us: seq<Update>)
    requires InRange(us) && AllFit(us)
    ensures var st := RunAll(us).st;
            && st.deleteMissing == Fates(us, Missed) && st.deleted == Fates(us, Removed)
            && st.updated == Fates(us, Changed) && st.inserted == Fates(us, New) && st.overflow == 0
  {
    if us != [] {
      AllFitLast(us);
      CountersAreFates(us[..|us| - 1]);
      KindIsFate(us);
    }
  }

  /** book_bbo after a run that fits: the best price and size of each dict, or zeros where there is none. */
  lemma {:induction false} BboIsBest(us: seq<Update>, sym: nat)
    requires InRange(us) && sym < MAX_SYMBOLS
    requires NeverFull(Changes(us, Cell(sym, Bid))) && NeverFull(Changes(us, Cell(sym, Ask)))
    ensures var cells := RunAll(us).cells;
            var bbo := BboOf(cells[Cell(sym, Bid)], cells[Cell(sym, Ask)]);
            var bids, asks := DictRun(Changes(us, Cell(sym, Bid))), DictRun(Changes(us, Cell(sym, Ask)));
            && (bbo.hasBid <==> bids != map[]) && (bbo.hasAsk <==> asks != map[])
            && (bbo.hasBid ==> IsBest(Bid, bids, bbo.bidPx) && bids[bbo.bidPx] == bbo.bidSz)
            && (bbo.hasAsk ==> IsBest(Ask, asks, bbo.askPx) && asks[bbo.askPx] == bbo.askSz)
            && (!bbo.hasBid ==> bbo.bidPx == 0 && bbo.bidSz == 0)
            && (!bbo.hasAsk ==> bbo.askPx == 0 && bbo.askSz == 0)
  {
    SideOfCell(sym, Bid);
    SideOfCell(sym, Ask);
    BooksAreDicts(us, Cell(sym, Bid));
    BooksAreDicts(us, Cell(sym, Ask));
  }

  function DepthAt(us: seq<Update>, n: nat, c: nat): nat
    requires InRange(us) && n <= |us| && c < CELLS
  {
    |RunAll(us[..n]).cells[c]|
  }

  lemma {:induction false} OneDepth(b: State, u: Update, c: nat)
    requires |b.cells| == CELLS && u.sym < MAX_SYMBOLS && c < CELLS
    requires |b.cells[Cell(u.sym, u.side)]| <= BOOK_MAX_LEVELS
    ensures var b' := Applied(b, u);
            && b.st.maxDepth <= b'.st.maxDepth
            && (|b.cells[c]| <= b.st.maxDepth ==> |b'.cells[c]| <= b'.st.maxDepth)
            && (b'.st.maxDepth == b.st.maxDepth || b'.st.maxDepth == |b'.cells[Cell(u.sym, u.side)]|)
  {
    ApplyIsEdit(u.side, b.cells[Cell(u.sym, u.side)], u.price, u.size);
  }

  /** max_depth bounds every depth any side has had ... */
  lemma {:induction false} MaxDepthBounds(us: seq<Update>, n: nat, c: nat)
    requires InRange(us) && n <= |us| && c < CELLS
    ensures DepthAt(us, n, c) <= RunAll(us).st.maxDepth
  {
    if us != [] {
      var init := us[..|us| - 1];
      Conservation(init);
      OneDepth(RunAll(init), us[|us| - 1], c);
      if n < |us| {
        MaxDepthBounds(init, n, c);
        assert init[..n] == us[..n];
      } else {
        MaxDepthBounds(init, |init|, c);
        assert init[..|init|] == init && us[..n] == us;
      }
    }
  }

  /** ... and some side has had it. */
  lemma {:induction false} MaxDepthReached(us: seq<Update>) returns (n: nat, c: nat)
    requires InRange(us)
    ensures n <= |us| && c < CELLS && DepthAt(us, n, c) == RunAll(us).st.maxDepth
  {
    n, c := |us|, 0;
    if us != [] {
      var u, init := us[|us| - 1], us[..|us| - 1];
      Conservation(init);
      OneDepth(RunAll(init), u, 0);
      if RunAll(us).st.maxDepth == RunAll(init).st.maxDepth {
        n, c := MaxDepthReached(init);
        assert init[..n] == us[..n];
      } else {
        c := Cell(u.sym, u.side);
        assert us[..n] == us;
      }
    }
  }
}
