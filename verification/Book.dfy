/** The book set: per symbol and side an array of levels, updated in place. */
module Book {
  import opened Levels
  import SymTab

  const MAX_SYMBOLS: nat := SymTab.MAX_SYMBOLS

  datatype Update = Update(sym: nat, side: Side, price: Price, size: Size)

  datatype Stats = Stats(applied: nat, inserted: nat, updated: nat, deleted: nat, deleteMissing: nat,
                         overflow: nat, maxDepth: nat)

  const NO_STATS: Stats := Stats(0, 0, 0, 0, 0, 0, 0)

  /** The counters of what happened to the side. */
  function Kinds(st: Stats, o: Outcome): Stats {
    match o
    case DeleteMissing => st.(deleteMissing := st.deleteMissing + 1)
    case Deleted => st.(deleted := st.deleted + 1)
    case Updated => st.(updated := st.updated + 1)
    case Inserted => st.(inserted := st.inserted + 1)
    case Evicted => st.(inserted := st.inserted + 1, overflow := st.overflow + 1)
    case Rejected => st.(overflow := st.overflow + 1)
  }

  /** The two outcomes that leave the side alone return early. */
  predicate Counted(o: Outcome) {
    !o.DeleteMissing? && !o.Rejected?
  }

  /** The counters after one update that left `depth` levels on its side. */
  function Count(st: Stats, o: Outcome, depth: nat): Stats {
    var s := Kinds(st, o);
    s.(applied := s.applied + 1, maxDepth := if Counted(o) && depth > s.maxDepth then depth else s.maxDepth)
  }

  /** Sides are numbered: both sides of symbol 0, both sides of symbol 1, ... */
  function Cell(sym: nat, side: Side): nat {
    2 * sym + if side.Bid? then 0 else 1
  }

  const CELLS: nat := 2 * MAX_SYMBOLS

  /** Everything a book set holds, as a value: the levels of every side, and the counters. */
  datatype State = State(cells: seq<seq<Level>>, st: Stats)

  function Applied(b: State, u: Update): State
    requires u.sym < MAX_SYMBOLS && |b.cells| == CELLS
  {
    var c := Cell(u.sym, u.side);
    var lv' := Levels.Apply(u.side, b.cells[c], u.price, u.size);
    State(b.cells[c := lv'], Count(b.st, OutcomeOf(u.side, b.cells[c], u.price, u.size), |lv'|))
  }

  function NoLevels(): (cells: seq<seq<Level>>)
    ensures |cells| == CELLS && forall c | 0 <= c < CELLS :: cells[c] == []
  {
    seq(CELLS, _ => [])
  }

  /** An absent side shows price and size 0. */
  datatype Bbo = Bbo(hasBid: bool, bidPx: Price, bidSz: Size, hasAsk: bool, askPx: Price, askSz: Size)

  function BboOf(bid: seq<Level>, ask: seq<Level>): Bbo {
    Bbo(
      bid != [], if bid == [] then 0 else bid[0].price, if bid == [] then 0 else bid[0].size,
      ask != [], if ask == [] then 0 else ask[0].price, if ask == [] then 0 else ask[0].size)
  }

  lemma RemoveElement(lv: seq<Level>, i: nat, k: nat)
    requires i < |lv| && k + 1 < |lv|
    ensures RemoveAt(lv, i)[k] == if k < i then lv[k] else lv[k + 1]
  {
  }

  lemma InsertElement(lv: seq<Level>, i: nat, l: Level, k: nat)
    requires i <= |lv| && k <= |lv|
    ensures InsertAt(lv, i, l)[k] == if k < i then lv[k] else if k == i then l else lv[k - 1]
  {
  }

  /** Where the level array of a side starts; the arrays lie one after the other. */
  function Base(c: nat): nat {
    BOOK_MAX_LEVELS * c
  }

  class BookSet {
    const n: array<nat>
    const level: array<Level>
    var st: Stats
    ghost var cells: seq<seq<Level>>

    /** Only the first n levels of a side count; the rest of its array is never read. */
    ghost predicate Valid()
      reads this, n, level
    {
      && n.Length == |cells| == CELLS && level.Length == Base(CELLS)
      && forall c | 0 <= c < CELLS :: n[c] == |cells[c]| <= BOOK_MAX_LEVELS && Holds(c, cells[c])
    }

    ghost predicate Holds(c: nat, lv: seq<Level>)
      requires Base(c) + |lv| <= level.Length
      reads level
    {
      forall k | 0 <= k < |lv| :: level[Base(c) + k] == lv[k]
    }

    ghost function Snapshot(): State
      reads this
    {
      State(cells, st)
    }

    /** The arrays come zeroed; only the counts matter. */
    constructor ()
      ensures Valid() && fresh(n) && fresh(level)
      ensures Snapshot() == State(NoLevels(), NO_STATS)
    {
      n := new nat[CELLS](_ => 0);
      level := new Level[Base(CELLS)](_ => Level(0, 0));
      st := NO_STATS;
      cells := NoLevels();
    }

    /** The linear search: the first level that is not better than `price`. */
    method Search(c: nat, side: Side, price: Price) returns (i: nat)
      requires Valid() && c < CELLS
      ensures i == Cut(side, cells[c], price)
    {
      var key := Key(side, price);
      i := 0;
      while i < n[c] && Key(side, level[Base(c) + i].price) < key
        invariant i <= n[c] && forall j | 0 <= j < i :: Key(side, cells[c][j].price) < key
      {
        assert level[Base(c) + i] == cells[c][i];
        i := i + 1;
      }
      assert i < n[c] ==> level[Base(c) + i] == cells[c][i];
      CutUnique(side, cells[c], price, i);
    }

    method Store(c: nat, i: nat, l: Level)
      requires Valid() && c < CELLS && i < n[c]
      modifies this`cells, level
      ensures Valid() && cells == old(cells)[c := old(cells[c])[i := l]]
    {
      level[Base(c) + i] := l;
      cells := cells[c := cells[c][i := l]];
    }

    /** memmove of `len` levels within the level array; source and destination may overlap. */
    method Memmove(dst: nat, src: nat, len: nat)
      requires dst + len <= level.Length && src + len <= level.Length
      modifies level
      ensures forall k | 0 <= k < level.Length ::
                level[k] == old(level[if dst <= k < dst + len then k - dst + src else k])
    {
      forall k | dst <= k < dst + len {
        level[k] := level[k - dst + src];
      }
    }

    /** memmove within one side's array leaves the other sides alone. */
    lemma OthersHold(c: nat, e: nat, lv: seq<Level>, before: seq<Level>)
      requires c < CELLS && e < CELLS && e != c && |lv| <= BOOK_MAX_LEVELS
      requires level.Length == |before| == Base(CELLS)
      requires forall k | 0 <= k < |before| && !(Base(c) <= k < Base(c) + BOOK_MAX_LEVELS) :: level[k] == before[k]
      requires forall k | 0 <= k < |lv| :: before[Base(e) + k] == lv[k]
      ensures Holds(e, lv)
    {
      forall k | 0 <= k < |lv| ensures level[Base(e) + k] == lv[k] {
        assert Base(e) + k < Base(c) || Base(e) + k >= Base(c) + BOOK_MAX_LEVELS;
      }
    }

    method Remove(c: nat, i: nat)
      requires Valid() && c < CELLS && i < n[c]
      modifies this`cells, n, level
      ensures Valid() && cells == old(cells)[c := RemoveAt(old(cells[c]), i)]
    {
      ghost var lv := cells[c];
      Memmove(Base(c) + i, Base(c) + i + 1, n[c] - i - 1);
      n[c] := n[c] - 1;
      cells := cells[c := RemoveAt(lv, i)];
      forall k | 0 <= k < n[c]
        ensures level[Base(c) + k] == cells[c][k]
      {
        RemoveElement(lv, i, k);
      }
    }

    /** Keeps the first `depth` levels and puts one in front of the i-th. */
    method Insert(c: nat, depth: nat, i: nat, l: Level)
      requires Valid() && c < CELLS && i <= depth <= n[c] && depth < BOOK_MAX_LEVELS
      modifies this`cells, n, level
      ensures Valid() && cells == old(cells)[c := InsertAt(old(cells[c])[..depth], i, l)]
    {
      ghost var lv, before := cells[c][..depth], level[..];
      Memmove(Base(c) + i + 1, Base(c) + i, depth - i);
      level[Base(c) + i] := l;
      forall e | 0 <= e < CELLS && e != c ensures Holds(e, cells[e]) {
        OthersHold(c, e, cells[e], before);
      }
      forall k | 0 <= k <= depth
        ensures level[Base(c) + k] == InsertAt(lv, i, l)[k]
      {
        InsertElement(lv, i, l, k);
      }
      assert Holds(c, InsertAt(lv, i, l));
      n[c] := depth + 1;
      cells := cells[c := InsertAt(lv, i, l)];
    }

    /** The size-0 branch: take the level out, if it is there. */
    method Delete(u: Update, c: nat, i: nat, found: bool) returns (counted: bool, ghost o: Outcome)
      requires Valid() && c < CELLS && u.size == 0
      requires i == Cut(u.side, cells[c], u.price) && found == Listed(u.side, cells[c], u.price)
      modifies this, n, level
      ensures Valid()
      ensures o == OutcomeOf(u.side, old(cells[c]), u.price, u.size)
      ensures cells == old(cells)[c := Edit(o, old(cells[c]), i, Level(u.price, u.size))]
      ensures st == Kinds(old(st), o) && counted == Counted(o)
    {
      if !found {
        st := st.(deleteMissing := st.deleteMissing + 1);
        return false, DeleteMissing;
      }
      Remove(c, i);
      st := st.(deleted := st.deleted + 1);
      return true, Deleted;
    }

    /** The branch for a new price: make room, or refuse, and put the level in. */
    method Add(u: Update, c: nat, i: nat) returns (counted: bool, ghost o: Outcome)
      requires Valid() && c < CELLS && u.size != 0
      requires i == Cut(u.side, cells[c], u.price) && !Listed(u.side, cells[c], u.price)
      modifies this, n, level
      ensures Valid()
      ensures o == OutcomeOf(u.side, old(cells[c]), u.price, u.size)
      ensures cells == old(cells)[c := Edit(o, old(cells[c]), i, Level(u.price, u.size))]
      ensures st == Kinds(old(st), o) && counted == Counted(o)
    {
      assert cells[c][..n[c]] == cells[c];
      var depth := n[c];
      o := Inserted;
      if depth == BOOK_MAX_LEVELS {
        st := st.(overflow := st.overflow + 1);
        if i == depth {
          return false, Rejected;
        }
        depth, o := depth - 1, Evicted;
      }
      Insert(c, depth, i, Level(u.price, u.size));
      st := st.(inserted := st.inserted + 1);
      return true, o;
    }

    /** Search the side and take the branch the update calls for. */
    method Change(u: Update, c: nat) returns (counted: bool, ghost o: Outcome)
      requires Valid() && c < CELLS
      modifies this, n, level
      ensures Valid()
      ensures o == OutcomeOf(u.side, old(cells[c]), u.price, u.size)
      ensures var i := Cut(u.side, old(cells[c]), u.price);
              cells == old(cells)[c := Edit(o, old(cells[c]), i, Level(u.price, u.size))]
      ensures st == Kinds(old(st), o) && counted == Counted(o)
    {
      var i := Search(c, u.side, u.price);
      assert i < n[c] ==> level[Base(c) + i] == cells[c][i];
      var found := i < n[c] && level[Base(c) + i].price == u.price;
      if u.size == 0 {
        counted, o := Delete(u, c, i, found);
      } else if found {
        Store(c, i, Level(u.price, u.size));
        st := st.(updated := st.updated + 1);
        counted, o := true, Updated;
      } else {
        counted, o := Add(u, c, i);
      }
    }

    method Apply(u: Update)
      requires Valid() && u.sym < MAX_SYMBOLS && HasKey(u.side, u.price)
      modifies this, n, level
      ensures Valid()
      ensures Snapshot() == Applied(old(Snapshot()), u)
    {
      var c := Cell(u.sym, u.side);
      ApplyIsEdit(u.side, cells[c], u.price, u.size);
      var counted, o := Change(u, c);
      st := st.(applied := st.applied + 1);
      if counted && n[c] > st.maxDepth {
        st := st.(maxDepth := n[c]);
      }
    }

    method BestBidOffer(sym: nat) returns (bbo: Bbo)
      requires Valid() && sym < MAX_SYMBOLS
      ensures bbo == BboOf(cells[Cell(sym, Bid)], cells[Cell(sym, Ask)])
    {
      var cb, ca := Cell(sym, Bid), Cell(sym, Ask);
      var bid := if n[cb] > 0 then level[Base(cb)] else Level(0, 0);
      var ask := if n[ca] > 0 then level[Base(ca)] else Level(0, 0);
      bbo := Bbo(n[cb] > 0, bid.price, bid.size, n[ca] > 0, ask.price, ask.size);
      assert n[cb] > 0 ==> level[Base(cb) + 0] == cells[cb][0];
      assert n[ca] > 0 ==> level[Base(ca) + 0] == cells[ca][0];
    }
  }
}
