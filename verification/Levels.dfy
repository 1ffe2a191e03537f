/** One side of a book as a value: best price first, at most BOOK_MAX_LEVELS levels, and the dict it stands for. */
module Levels {

  const BOOK_MAX_LEVELS: nat := 64

  datatype Side = Bid | Ask

  /** int64_t and uint32_t. */
  type Price = p: int | -0x8000_0000_0000_0000 <= p < 0x8000_0000_0000_0000
  type Size = n: nat | n < 0x1_0000_0000

  datatype Level = Level(price: Price, size: Size)

  /** Smaller is better on both sides. */
  function Key(side: Side, p: int): int {
    if side.Bid? then -p else p
  }

  /** The code flips the sign of bids, which int64_t allows for all prices but its minimum. */
  predicate HasKey(side: Side, p: Price) {
    side.Bid? ==> p > -0x8000_0000_0000_0000
  }

  /** Those whose key is an int64_t again. */
  lemma KeyFits(side: Side, p: Price)
    ensures HasKey(side, p) <==> -0x8000_0000_0000_0000 <= Key(side, p) < 0x8000_0000_0000_0000
    ensures Key(Ask, p) == p && Key(Bid, p) + p == 0
  {
  }

  /** How many leading levels are better than `p`. */
  function Cut(side: Side, lv: seq<Level>, p: Price): (i: nat)
    ensures i <= |lv|
  {
    CutFrom(side, lv, p, 0)
  }

  function CutFrom(side: Side, lv: seq<Level>, p: Price, i: nat): (r: nat)
    requires i <= |lv|
    ensures i <= r <= |lv|
    decreases |lv| - i
  {
    if i < |lv| && Key(side, lv[i].price) < Key(side, p) then CutFrom(side, lv, p, i + 1) else i
  }

  /** `i` is where the run of levels better than `p` ends. */
  ghost predicate IsCut(side: Side, lv: seq<Level>, p: Price, i: nat) {
    && i <= |lv|
    && (forall j | 0 <= j < i :: Key(side, lv[j].price) < Key(side, p))
    && (i < |lv| ==> Key(side, lv[i].price) >= Key(side, p))
  }

  lemma {:induction false} CutFromMeans(side: Side, lv: seq<Level>, p: Price, i: nat)
    requires i <= |lv| && forall j | 0 <= j < i :: Key(side, lv[j].price) < Key(side, p)
    ensures IsCut(side, lv, p, CutFrom(side, lv, p, i))
    decreases |lv| - i
  {
    if i < |lv| && Key(side, lv[i].price) < Key(side, p) {
      CutFromMeans(side, lv, p, i + 1);
    }
  }

  lemma CutUnique(side: Side, lv: seq<Level>, p: Price, i: nat)
    ensures IsCut(side, lv, p, i) <==> i == Cut(side, lv, p)
  {
    CutFromMeans(side, lv, p, 0);
  }

  predicate Listed(side: Side, lv: seq<Level>, p: Price) {
    var i := Cut(side, lv, p);
    i < |lv| && lv[i].price == p
  }

  /** The levels not better than `p`, without `p` itself. */
  function Worse(side: Side, lv: seq<Level>, p: Price): seq<Level> {
    lv[if Listed(side, lv, p) then Cut(side, lv, p) + 1 else Cut(side, lv, p)..]
  }

  /** The best BOOK_MAX_LEVELS of a list. */
  function Keep(lv: seq<Level>): seq<Level> {
    if |lv| <= BOOK_MAX_LEVELS then lv else lv[..BOOK_MAX_LEVELS]
  }

  /** One price level update: put the level in its place, or take it out, and keep the best ones. */
  function Apply(side: Side, lv: seq<Level>, p: Price, size: Size): seq<Level> {
    var better, worse := lv[..Cut(side, lv, p)], Worse(side, lv, p);
    if size == 0 then better + worse else Keep(better + [Level(p, size)] + worse)
  }

  datatype Outcome = DeleteMissing | Deleted | Updated | Inserted | Evicted | Rejected

  function OutcomeOf(side: Side, lv: seq<Level>, p: Price, size: Size): Outcome {
    if size == 0 then
      if Listed(side, lv, p) then Deleted else DeleteMissing
    else if Listed(side, lv, p) then Updated
    else if |lv| != BOOK_MAX_LEVELS then Inserted
    else if Cut(side, lv, p) == |lv| then Rejected
    else Evicted
  }

  predicate Overflows(o: Outcome) {
    o.Evicted? || o.Rejected?
  }

  // The invariant of a side, and the dict of the reference.

  ghost predicate Sorted(side: Side, lv: seq<Level>) {
    forall i, j | 0 <= i < j < |lv| :: Key(side, lv[i].price) < Key(side, lv[j].price)
  }

  ghost predicate Ok(side: Side, lv: seq<Level>) {
    Sorted(side, lv) && |lv| <= BOOK_MAX_LEVELS && forall i | 0 <= i < |lv| :: 0 < lv[i].size
  }

  /** The reference's dict of a side, which knows no widths. */
  type Dict = map<int, nat>

  function DictApply(m: Dict, p: int, size: nat): Dict {
    if size == 0 then m - {p} else m[p := size]
  }

  /** A size of 0 takes the price out, any other puts it in; the other prices stay. */
  lemma DictMeans(m: Dict, p: int, size: nat, q: int)
    ensures q in DictApply(m, p, size) <==> if q == p then size != 0 else q in m
    ensures q in DictApply(m, p, size) ==> DictApply(m, p, size)[q] == if q == p then size else m[q]
  {
  }

  /** Every level carries the dict's size. */
  ghost predicate Within(lv: seq<Level>, m: Dict) {
    forall i | 0 <= i < |lv| :: lv[i].price in m && m[lv[i].price] == lv[i].size
  }

  ghost predicate HasPrice(lv: seq<Level>, p: int) {
    exists i | 0 <= i < |lv| :: lv[i].price == p
  }

  /** The list is exactly the dict's entries, best first. */
  ghost predicate Represents(side: Side, lv: seq<Level>, m: Dict) {
    Ok(side, lv) && Within(lv, m) && forall p | p in m :: HasPrice(lv, p)
  }

  // Apply as one edit of the list.

  function RemoveAt(lv: seq<Level>, i: nat): seq<Level>
    requires i < |lv|
  {
    lv[..i] + lv[i + 1..]
  }

  function InsertAt(lv: seq<Level>, i: nat, l: Level): seq<Level>
    requires i <= |lv|
  {
    lv[..i] + [l] + lv[i..]
  }

  function Edit(o: Outcome, lv: seq<Level>, i: nat, l: Level): seq<Level>
    requires i <= |lv| && (o.Deleted? || o.Updated? || o.Evicted? ==> i < |lv|)
  {
    match o
    case DeleteMissing => lv
    case Deleted => RemoveAt(lv, i)
    case Updated => lv[i := l]
    case Inserted => InsertAt(lv, i, l)
    case Evicted => InsertAt(lv[..|lv| - 1], i, l)
    case Rejected => lv
  }

  lemma ApplyIsEdit(side: Side, lv: seq<Level>, p: Price, size: Size)
    requires |lv| <= BOOK_MAX_LEVELS
    ensures Apply(side, lv, p, size) == Edit(OutcomeOf(side, lv, p, size), lv, Cut(side, lv, p), Level(p, size))
  {
    var i, l := Cut(side, lv, p), Level(p, size);
    match OutcomeOf(side, lv, p, size)
    case DeleteMissing => assert lv[..i] + lv[i..] == lv;
    case Deleted =>
    case Updated => assert lv[..i] + [l] + lv[i + 1..] == lv[i := l];
    case Inserted =>
    case Evicted => KeepEvicts(lv, i, l);
    case Rejected => KeepRejects(lv, l);
  }

  lemma KeepEvicts(lv: seq<Level>, i: nat, l: Level)
    requires i < |lv| == BOOK_MAX_LEVELS
    ensures Keep(InsertAt(lv, i, l)) == InsertAt(lv[..|lv| - 1], i, l)
  {
  }

  lemma KeepRejects(lv: seq<Level>, l: Level)
    requires |lv| == BOOK_MAX_LEVELS
    ensures Keep(InsertAt(lv, |lv|, l)) == lv
  {
  }

  /** Nothing before `i` is worse than `p`, and everything from `i` on is. */
  ghost predicate Fits(side: Side, lv: seq<Level>, i: nat, p: Price) {
    && i <= |lv|
    && (forall j | 0 <= j < i :: Key(side, lv[j].price) < Key(side, p))
    && (forall j | i <= j < |lv| :: Key(side, p) < Key(side, lv[j].price))
  }

  lemma CutFits(side: Side, lv: seq<Level>, p: Price)
    requires Sorted(side, lv)
    ensures Listed(side, lv, p) <==> HasPrice(lv, p)
    ensures !Listed(side, lv, p) ==> Fits(side, lv, Cut(side, lv, p), p)
  {
    CutUnique(side, lv, p, Cut(side, lv, p));
  }

  lemma InsertOk(side: Side, lv: seq<Level>, i: nat, l: Level)
    requires Ok(side, lv) && Fits(side, lv, i, l.price) && 0 < l.size && |lv| < BOOK_MAX_LEVELS
    ensures Ok(side, InsertAt(lv, i, l))
  {
    var lv' := InsertAt(lv, i, l);
    assert forall j | 0 <= j < |lv'| :: lv'[j] == if j < i then lv[j] else if j == i then l else lv[j - 1];
  }

  lemma RemoveOk(side: Side, lv: seq<Level>, i: nat)
    requires Ok(side, lv) && i < |lv|
    ensures Ok(side, RemoveAt(lv, i))
  {
    var lv' := RemoveAt(lv, i);
    assert forall j | 0 <= j < |lv'| :: lv'[j] == if j < i then lv[j] else lv[j + 1];
  }

  lemma UpdateOk(side: Side, lv: seq<Level>, i: nat, l: Level)
    requires Ok(side, lv) && i < |lv| && lv[i].price == l.price && 0 < l.size
    ensures Ok(side, lv[i := l])
  {
  }

  lemma EvictOk(side: Side, lv: seq<Level>, i: nat, l: Level)
    requires Ok(side, lv) && i < |lv| && Fits(side, lv, i, l.price) && 0 < l.size
    ensures Ok(side, InsertAt(lv[..|lv| - 1], i, l))
  {
    InsertOk(side, lv[..|lv| - 1], i, l);
  }

  lemma ApplyOk(side: Side, lv: seq<Level>, p: Price, size: Size)
    requires Ok(side, lv)
    ensures Ok(side, Apply(side, lv, p, size))
  {
    var i, l := Cut(side, lv, p), Level(p, size);
    ApplyIsEdit(side, lv, p, size);
    CutFits(side, lv, p);
    match OutcomeOf(side, lv, p, size)
    case Deleted => RemoveOk(side, lv, i);
    case Updated => UpdateOk(side, lv, i, l);
    case Inserted => InsertOk(side, lv, i, l);
    case Evicted => EvictOk(side, lv, i, l);
    case _ =>
  }

  lemma InsertWithin(lv: seq<Level>, m: Dict, i: nat, l: Level)
    requires Within(lv, m) && i <= |lv| && !HasPrice(lv, l.price)
    ensures Within(InsertAt(lv, i, l), m[l.price := l.size])
  {
    var lv' := InsertAt(lv, i, l);
    assert forall j | 0 <= j < |lv'| :: lv'[j] == if j < i then lv[j] else if j == i then l else lv[j - 1];
  }

  lemma RemoveWithin(side: Side, lv: seq<Level>, m: Dict, i: nat)
    requires Sorted(side, lv) && Within(lv, m) && i < |lv|
    ensures Within(RemoveAt(lv, i), m - {lv[i].price})
  {
    var lv' := RemoveAt(lv, i);
    assert forall j | 0 <= j < |lv'| :: lv'[j] == if j < i then lv[j] else lv[j + 1];
  }

  lemma UpdateWithin(side: Side, lv: seq<Level>, m: Dict, i: nat, l: Level)
    requires Sorted(side, lv) && Within(lv, m) && i < |lv| && lv[i].price == l.price
    ensures Within(lv[i := l], m[l.price := l.size])
  {
  }

  lemma AbsentWithin(lv: seq<Level>, m: Dict, l: Level)
    requires Within(lv, m) && !HasPrice(lv, l.price)
    ensures Within(lv, m[l.price := l.size]) && Within(lv, m - {l.price})
  {
  }

  /** With or without overflow, every level carries the dict's size. */
  lemma ApplyWithin(side: Side, lv: seq<Level>, m: Dict, p: Price, size: Size)
    requires Ok(side, lv) && Within(lv, m)
    ensures Within(Apply(side, lv, p, size), DictApply(m, p, size))
  {
    var i, l := Cut(side, lv, p), Level(p, size);
    ApplyIsEdit(side, lv, p, size);
    CutFits(side, lv, p);
    match OutcomeOf(side, lv, p, size)
    case DeleteMissing => AbsentWithin(lv, m, l);
    case Deleted => RemoveWithin(side, lv, m, i);
    case Updated => UpdateWithin(side, lv, m, i, l);
    case Inserted => InsertWithin(lv, m, i, l);
    case Evicted => InsertWithin(lv[..|lv| - 1], m, i, l);
    case Rejected => AbsentWithin(lv, m, l);
  }

  /** The prices after an edit. */
  lemma EditPrices(o: Outcome, lv: seq<Level>, i: nat, l: Level, q: int)
    requires i <= |lv| && (o.Deleted? || o.Updated? ==> i < |lv| && lv[i].price == l.price) && !Overflows(o)
    requires HasPrice(lv, q) && q != l.price
    ensures HasPrice(Edit(o, lv, i, l), q)
  {
    var lv' := Edit(o, lv, i, l);
    var j :| 0 <= j < |lv| && lv[j].price == q;
    if j < i || o.DeleteMissing? || o.Updated? {
      assert lv'[j].price == q;
    } else if o.Deleted? {
      assert lv'[j - 1].price == q;
    } else {
      assert lv'[j + 1].price == q;
    }
  }

  /** Without overflow, the side stays exactly the dict. */
  lemma ApplyRepresents(side: Side, lv: seq<Level>, m: Dict, p: Price, size: Size)
    requires Represents(side, lv, m) && !Overflows(OutcomeOf(side, lv, p, size))
    ensures Represents(side, Apply(side, lv, p, size), DictApply(m, p, size))
  {
    var i, o, l := Cut(side, lv, p), OutcomeOf(side, lv, p, size), Level(p, size);
    ApplyOk(side, lv, p, size);
    ApplyWithin(side, lv, m, p, size);
    ApplyIsEdit(side, lv, p, size);
    forall q | q in DictApply(m, p, size)
      ensures HasPrice(Edit(o, lv, i, l), q)
    {
      if q == p {
        assert Edit(o, lv, i, l)[i].price == p;
      } else {
        assert HasPrice(lv, q);
        EditPrices(o, lv, i, l, q);
      }
    }
  }

  function Prices(lv: seq<Level>): set<int> {
    set l | l in lv :: l.price
  }

  lemma {:induction false} PriceCount(side: Side, lv: seq<Level>)
    requires Sorted(side, lv)
    ensures |Prices(lv)| == |lv|
  {
    if lv != [] {
      var init, last := lv[..|lv| - 1], lv[|lv| - 1];
      PriceCount(side, init);
      assert lv == init + [last];
      assert Prices(lv) == Prices(init) + {last.price};
      assert last.price !in Prices(init);
    }
  }

  /** A side that is exactly the dict has one level for each entry. */
  lemma RepresentsCount(side: Side, lv: seq<Level>, m: Dict)
    requires Represents(side, lv, m)
    ensures |lv| == |m|
  {
    PriceCount(side, lv);
    forall p | p in m
      ensures p in Prices(lv)
    {
      assert HasPrice(lv, p);
    }
    assert Prices(lv) == m.Keys;
  }

  /** Overflow is exactly the moment the dict outgrows the array. */
  lemma OverflowIff(side: Side, lv: seq<Level>, m: Dict, p: Price, size: Size)
    requires Represents(side, lv, m)
    ensures Overflows(OutcomeOf(side, lv, p, size)) <==> |DictApply(m, p, size)| > BOOK_MAX_LEVELS
  {
    RepresentsCount(side, lv, m);
    CutFits(side, lv, p);
    assert HasPrice(lv, p) <==> p in m;
    DictCount(m, p, size);
  }

  lemma DictCount(m: Dict, p: int, size: nat)
    ensures |DictApply(m, p, size)| ==
            |m| + if size == 0 then (if p in m then -1 else 0) else if p in m then 0 else 1
  {
    assert (m - {p}).Keys == m.Keys - {p};
    assert m[p := size].Keys == m.Keys + {p};
  }

  lemma Member<T>(s: set<T>) returns (x: T)
    requires s != {}
    ensures x in s
  {
    x :| x in s;
  }

  lemma SomeKey(keys: set<int>)
    ensures keys == {} || exists p :: p in keys
  {
    if keys != {} {
      var p := Member(keys);
      assert p in keys;
    }
  }

  /** `p` is the best price of the dict: max of the bids, min of the asks. */
  ghost predicate IsBest(side: Side, m: Dict, p: int) {
    p in m && forall q | q in m :: Key(side, p) <= Key(side, q)
  }

  /** The front of the list is the dict's best, and it is empty only with the dict. */
  ghost predicate SameBest(side: Side, lv: seq<Level>, m: Dict) {
    && (lv == [] <==> m == map[])
    && (lv != [] ==> IsBest(side, m, lv[0].price) && m[lv[0].price] == lv[0].size)
  }

  /** In plain prices: the greatest of the bids, the least of the asks. */
  lemma BestMeans(m: Dict, p: int)
    ensures IsBest(Bid, m, p) <==> p in m && forall q | q in m :: q <= p
    ensures IsBest(Ask, m, p) <==> p in m && forall q | q in m :: p <= q
  {
  }

  /** And an array that is in order has its bids falling, its asks rising, none of them twice, and at most 64. */
  lemma OkMeans(lv: seq<Level>)
    ensures Ok(Bid, lv) <==> |lv| <= 64 && (forall i | 0 <= i < |lv| :: 0 < lv[i].size) &&
                             forall i, j | 0 <= i < j < |lv| :: lv[i].price > lv[j].price
    ensures Ok(Ask, lv) <==> |lv| <= 64 && (forall i | 0 <= i < |lv| :: 0 < lv[i].size) &&
                             forall i, j | 0 <= i < j < |lv| :: lv[i].price < lv[j].price
  {
  }

  lemma RepresentsBest(side: Side, lv: seq<Level>, m: Dict)
    requires Represents(side, lv, m)
    ensures SameBest(side, lv, m)
  {
    if lv == [] {
      assert forall p | p in m :: HasPrice(lv, p);
      SomeKey(m.Keys);
    } else {
      assert lv[0].price in m;
      forall q | q in m
        ensures Key(side, lv[0].price) <= Key(side, q)
      {
        assert HasPrice(lv, q);
      }
    }
  }

  /** The array is determined by the dict. */
  lemma {:induction false} Canonical(side: Side, a: seq<Level>, b: seq<Level>, m: Dict)
    requires Represents(side, a, m) && Represents(side, b, m)
    ensures a == b
  {
    SameFront(side, a, b, m);
    if a != [] {
      RepresentsTail(side, a, m);
      RepresentsTail(side, b, m);
      Canonical(side, a[1..], b[1..], m - {a[0].price});
      assert a == [a[0]] + a[1..] && b == [b[0]] + b[1..];
    }
  }

  lemma SameFront(side: Side, a: seq<Level>, b: seq<Level>, m: Dict)
    requires Represents(side, a, m) && Represents(side, b, m)
    ensures if a == [] then b == [] else b != [] && a[0] == b[0]
  {
    RepresentsBest(side, a, m);
    RepresentsBest(side, b, m);
  }

  lemma RepresentsTail(side: Side, lv: seq<Level>, m: Dict)
    requires Represents(side, lv, m) && lv != []
    ensures Represents(side, lv[1..], m - {lv[0].price})
  {
    forall p | p in m - {lv[0].price}
      ensures HasPrice(lv[1..], p)
    {
      assert HasPrice(lv, p);
      var j :| 0 <= j < |lv| && lv[j].price == p;
      assert lv[1..][j - 1].price == p;
    }
  }

  // A side over a whole run.

  datatype Change = Change(price: Price, size: Size)

  function Run(side: Side, run: seq<Change>): seq<Level> {
    if run == [] then [] else
      var c := run[|run| - 1];
      Apply(side, Run(side, run[..|run| - 1]), c.price, c.size)
  }

  function DictRun(run: seq<Change>): Dict {
    if run == [] then map[] else
      var c := run[|run| - 1];
      DictApply(DictRun(run[..|run| - 1]), c.price, c.size)
  }

  lemma RunLast(side: Side, run: seq<Change>, c: Change)
    ensures Run(side, run + [c]) == Apply(side, Run(side, run), c.price, c.size)
    ensures DictRun(run + [c]) == DictApply(DictRun(run), c.price, c.size)
  {
    assert (run + [c])[..|run|] == run;
  }

  /** Neither now nor at any earlier point does the dict have more than BOOK_MAX_LEVELS entries. */
  ghost predicate NeverFull(run: seq<Change>) {
    |DictRun(run)| <= BOOK_MAX_LEVELS && (run != [] ==> NeverFull(run[..|run| - 1]))
  }

  lemma {:induction false} RunOk(side: Side, run: seq<Change>)
    ensures Ok(side, Run(side, run))
  {
    if run != [] {
      var c := run[|run| - 1];
      RunOk(side, run[..|run| - 1]);
      ApplyOk(side, Run(side, run[..|run| - 1]), c.price, c.size);
    }
  }

  /** For every run on which the dict fits, the array is the dict in best-first order. */
  lemma {:induction false} RunRepresents(side: Side, run: seq<Change>)
    requires NeverFull(run)
    ensures Represents(side, Run(side, run), DictRun(run))
  {
    if run != [] {
      var init, last := run[..|run| - 1], run[|run| - 1];
      RunRepresents(side, init);
      OverflowIff(side, Run(side, init), DictRun(init), last.price, last.size);
      ApplyRepresents(side, Run(side, init), DictRun(init), last.price, last.size);
    }
  }
}
