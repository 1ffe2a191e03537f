/** How long a side that had to drop levels still shows the right best price. */
module Horizon {
  import opened Levels

  /** One side after a run, next to the dict that never drops anything. */
  datatype Track = Track(
    lv: seq<Level>,
    dict: Dict,
    dropped: set<Price>,   // every price ever evicted or rejected
    deletes: nat)          // levels deleted since the first of them

  function Advance(side: Side, t: Track, p: Price, size: Size): Track {
    var o := OutcomeOf(side, t.lv, p, size);
    Track(
      Apply(side, t.lv, p, size),
      DictApply(t.dict, p, size),
      DroppedAfter(o, t.lv, t.dropped, p),
      t.deletes + if o.Deleted? && t.dropped != {} then 1 else 0)
  }

  function DroppedAfter(o: Outcome, lv: seq<Level>, dropped: set<Price>, p: Price): set<Price> {
    match o
    case Rejected => dropped + {p}
    case Evicted => if lv == [] then dropped else dropped + {lv[|lv| - 1].price}
    case _ => dropped
  }

  function Follow(side: Side, run: seq<Change>): Track {
    if run == [] then Track([], map[], {}, 0) else
      var c := run[|run| - 1];
      Advance(side, Follow(side, run[..|run| - 1]), c.price, c.size)
  }

  /** The first `c` levels are strictly better than every price ever dropped. */
  ghost predicate Ahead(side: Side, lv: seq<Level>, dropped: set<Price>, c: nat) {
    c <= |lv| && forall i, d | 0 <= i < c && d in dropped :: Key(side, lv[i].price) < Key(side, d)
  }

  /** A dict entry that the array lacks was dropped some time. */
  ghost predicate Covered(lv: seq<Level>, m: Dict, dropped: set<Price>) {
    forall p | p in m :: HasPrice(lv, p) || p in dropped
  }

  ghost predicate TrackInv(side: Side, t: Track, c: nat) {
    && Ok(side, t.lv) && Within(t.lv, t.dict) && Covered(t.lv, t.dict, t.dropped)
    && Ahead(side, t.lv, t.dropped, c) && LeadCounts(t, c)
  }

  ghost predicate LeadCounts(t: Track, c: int) {
    if t.dropped == {} then t.deletes == 0 && c == |t.lv| else BOOK_MAX_LEVELS <= c + t.deletes
  }

  // How the lead over the dropped prices moves, edit by edit.

  lemma LeadInsert(side: Side, lv: seq<Level>, dropped: set<Price>, c: nat, i: nat, l: Level)
    requires Sorted(side, lv) && Ahead(side, lv, dropped, c) && Fits(side, lv, i, l.price)
    ensures Ahead(side, InsertAt(lv, i, l), dropped, if i < c then c + 1 else c)
  {
    var lv' := InsertAt(lv, i, l);
    if i < c {
      assert forall d | d in dropped :: Key(side, l.price) < Key(side, lv[i].price) < Key(side, d);
    }
    assert forall j | 0 <= j < |lv'| :: lv'[j] == if j < i then lv[j] else if j == i then l else lv[j - 1];
  }

  lemma LeadRemove(side: Side, lv: seq<Level>, dropped: set<Price>, c: nat, i: nat)
    requires Ahead(side, lv, dropped, c) && i < |lv|
    ensures Ahead(side, RemoveAt(lv, i), dropped, if i < c then c - 1 else c)
  {
    var lv' := RemoveAt(lv, i);
    assert forall j | 0 <= j < |lv'| :: lv'[j] == if j < i then lv[j] else lv[j + 1];
  }

  /** Dropping the last level leaves all others ahead of it. */
  lemma LeadEvict(side: Side, lv: seq<Level>, dropped: set<Price>, c: nat)
    requires Sorted(side, lv) && Ahead(side, lv, dropped, c) && lv != []
    ensures Ahead(side, lv[..|lv| - 1], dropped + {lv[|lv| - 1].price}, if c < |lv| then c else c - 1)
  {
  }

  lemma LeadReject(side: Side, lv: seq<Level>, dropped: set<Price>, c: nat, p: Price)
    requires Ahead(side, lv, dropped, c) && Fits(side, lv, |lv|, p)
    ensures Ahead(side, lv, dropped + {p}, c)
  {
  }

  lemma {:induction false} CoverEdit(side: Side, t: Track, p: Price, size: Size)
    requires Ok(side, t.lv) && Covered(t.lv, t.dict, t.dropped)
    ensures var t' := Advance(side, t, p, size); Covered(t'.lv, t'.dict, t'.dropped)
  {
    var i, o, l, t' := Cut(side, t.lv, p), OutcomeOf(side, t.lv, p, size), Level(p, size), Advance(side, t, p, size);
    ApplyIsEdit(side, t.lv, p, size);
    forall q | q in t'.dict
      ensures HasPrice(t'.lv, q) || q in t'.dropped
    {
      if q == p {
        assert !o.Rejected? ==> t'.lv[i].price == p;
      } else if HasPrice(t.lv, q) {
        if o.Evicted? {
          EvictedPrices(t.lv, i, l, q);
        } else if !o.Rejected? {
          EditPrices(o, t.lv, i, l, q);
        }
      }
    }
  }

  lemma EvictedPrices(lv: seq<Level>, i: nat, l: Level, q: int)
    requires i < |lv| && HasPrice(lv, q)
    ensures HasPrice(Edit(Evicted, lv, i, l), q) || q == lv[|lv| - 1].price
  {
    var lv' := Edit(Evicted, lv, i, l);
    var j :| 0 <= j < |lv| && lv[j].price == q;
    if j < |lv| - 1 {
      assert lv'[if j < i then j else j + 1].price == q;
    }
  }

  function LeadAfter(side: Side, t: Track, c: nat, p: Price, size: Size): int {
    var i := Cut(side, t.lv, p);
    match OutcomeOf(side, t.lv, p, size)
    case Deleted => if i < c then c - 1 else c
    case Inserted => if i < c || t.dropped == {} then c + 1 else c
    case Evicted => if i < c && c < BOOK_MAX_LEVELS then c + 1 else c
    case _ => c
  }

  lemma {:induction false} LeadStep(side: Side, t: Track, c: nat, p: Price, size: Size)
    requires Sorted(side, t.lv) && |t.lv| <= BOOK_MAX_LEVELS && Ahead(side, t.lv, t.dropped, c) && LeadCounts(t, c)
    ensures var i, o, c' := Cut(side, t.lv, p), OutcomeOf(side, t.lv, p, size), LeadAfter(side, t, c, p, size);
            0 <= c' && Ahead(side, Edit(o, t.lv, i, Level(p, size)), DroppedAfter(o, t.lv, t.dropped, p), c')
  {
    var i, l := Cut(side, t.lv, p), Level(p, size);
    CutFits(side, t.lv, p);
    match OutcomeOf(side, t.lv, p, size)
    case DeleteMissing =>
    case Deleted => LeadRemove(side, t.lv, t.dropped, c, i);
    case Updated => UpdatedLead(side, t.lv, t.dropped, c, i, l);
    case Inserted => InsertedLead(side, t, c, i, l);
    case Evicted => EvictedLead(side, t, c, i, l);
    case Rejected => LeadReject(side, t.lv, t.dropped, c, p);
  }

  lemma UpdatedLead(side: Side, lv: seq<Level>, dropped: set<Price>, c: nat, i: nat, l: Level)
    requires Ahead(side, lv, dropped, c) && i < |lv| && lv[i].price == l.price
    ensures Ahead(side, lv[i := l], dropped, c)
  {
  }

  lemma InsertedLead(side: Side, t: Track, c: nat, i: nat, l: Level)
    requires Sorted(side, t.lv) && Ahead(side, t.lv, t.dropped, c) && LeadCounts(t, c) && Fits(side, t.lv, i, l.price)
    ensures Ahead(side, InsertAt(t.lv, i, l), t.dropped, if i < c || t.dropped == {} then c + 1 else c)
  {
    LeadInsert(side, t.lv, t.dropped, c, i, l);
  }

  lemma TrackStep(side: Side, t: Track, c: nat, p: Price, size: Size)
    requires TrackInv(side, t, c)
    ensures 0 <= LeadAfter(side, t, c, p, size)
    ensures TrackInv(side, Advance(side, t, p, size), LeadAfter(side, t, c, p, size))
  {
    LeadStep(side, t, c, p, size);
    LeadCountsStep(side, t, c, p, size);
    ApplyIsEdit(side, t.lv, p, size);
    ApplyOk(side, t.lv, p, size);
    ApplyWithin(side, t.lv, t.dict, p, size);
    CoverEdit(side, t, p, size);
  }

  lemma LeadCountsStep(side: Side, t: Track, c: nat, p: Price, size: Size)
    requires LeadCounts(t, c) && c <= |t.lv| <= BOOK_MAX_LEVELS
    ensures LeadCounts(Advance(side, t, p, size), LeadAfter(side, t, c, p, size))
  {
    ApplyIsEdit(side, t.lv, p, size);
  }

  lemma EvictedLead(side: Side, t: Track, c: nat, i: nat, l: Level)
    requires Sorted(side, t.lv) && Ahead(side, t.lv, t.dropped, c)
    requires |t.lv| == BOOK_MAX_LEVELS && i < |t.lv| && Fits(side, t.lv, i, l.price)
    ensures Ahead(side, Edit(Evicted, t.lv, i, l), t.dropped + {t.lv[|t.lv| - 1].price},
                  if i < c && c < BOOK_MAX_LEVELS then c + 1 else c)
  {
    var n := |t.lv| - 1;
    if c <= n {
      LeadEvict(side, t.lv, t.dropped, c);
      LeadInsert(side, t.lv[..n], t.dropped + {t.lv[n].price}, c, i, l);
    } else {
      AllAhead(side, t.lv, t.dropped, i, l);
    }
  }

  /** Where every level was ahead, so is every level that stays, and the new one. */
  lemma AllAhead(side: Side, lv: seq<Level>, dropped: set<Price>, i: nat, l: Level)
    requires Sorted(side, lv) && lv != [] && Ahead(side, lv, dropped, |lv|)
    requires i < |lv| && Fits(side, lv, i, l.price)
    ensures Ahead(side, InsertAt(lv[..|lv| - 1], i, l), dropped + {lv[|lv| - 1].price}, |lv|)
  {
    var n := |lv| - 1;
    var lv' := InsertAt(lv[..n], i, l);
    forall j, d | 0 <= j <= n && d in dropped + {lv[n].price}
      ensures Key(side, lv'[j].price) < Key(side, d)
    {
      assert d in dropped ==> Key(side, lv[n].price) < Key(side, d);
      assert lv'[j] == if j < i then lv[j] else if j == i then l else lv[j - 1];
    }
  }

  lemma {:induction false} FollowInv(side: Side, run: seq<Change>) returns (c: nat)
    ensures TrackInv(side, Follow(side, run), c)
  {
    if run == [] {
      c := 0;
    } else {
      var last := run[|run| - 1];
      var before := FollowInv(side, run[..|run| - 1]);
      TrackStep(side, Follow(side, run[..|run| - 1]), before, last.price, last.size);
      c := LeadAfter(side, Follow(side, run[..|run| - 1]), before, last.price, last.size);
    }
  }

  lemma {:induction false} FollowRuns(side: Side, run: seq<Change>)
    ensures Follow(side, run).lv == Run(side, run) && Follow(side, run).dict == DictRun(run)
  {
    if run != [] {
      FollowRuns(side, run[..|run| - 1]);
    }
  }

  /**
    * The horizon. On every run every stored level carries the dict's size; the stored levels strictly better than
    * every price ever dropped number at least 64 minus the deletes since the first drop; and while those deletes
    * are fewer than 64 the best price and size are the dict's.
    */
  lemma {:induction false} BestSurvives(side: Side, run: seq<Change>) returns (c: nat)
    ensures var t := Follow(side, run);
            && Within(Run(side, run), DictRun(run))
            && Ahead(side, Run(side, run), t.dropped, c)
            && (t.dropped != {} ==> BOOK_MAX_LEVELS <= c + t.deletes)
            && (t.dropped == {} || t.deletes < BOOK_MAX_LEVELS ==> SameBest(side, Run(side, run), DictRun(run)))
  {
    c := FollowInv(side, run);
    FollowRuns(side, run);
    var t := Follow(side, run);
    if t.dropped == {} || t.deletes < BOOK_MAX_LEVELS {
      LeadMeansBest(side, t, c);
    }
  }

  lemma LeadMeansBest(side: Side, t: Track, c: nat)
    requires TrackInv(side, t, c) && (t.dropped == {} || 0 < c)
    ensures SameBest(side, t.lv, t.dict)
  {
    assert forall p | p in t.dict :: HasPrice(t.lv, p) || p in t.dropped;
    if t.lv != [] {
      assert t.lv[0].price in t.dict;
    } else if t.dict != map[] {
      assert t.dropped == {};
      SomeKey(t.dict.Keys);
    }
  }

  // What the horizon counts, told by arrays and dicts alone.

  /** With this change the array loses a price that the dict keeps. */
  ghost predicate Loses(side: Side, lv: seq<Level>, m: Dict, c: Change, q: int) {
    && (HasPrice(lv, q) || q == c.price)
    && !HasPrice(Apply(side, lv, c.price, c.size), q) && q in DictApply(m, c.price, c.size)
  }

  lemma {:induction false} LosesAtEnd(side: Side, lv: seq<Level>, i: nat, l: Level, q: int)
    requires Sorted(side, lv) && i < |lv| && Fits(side, lv, i, l.price) && HasPrice(lv, q)
    ensures HasPrice(InsertAt(lv[..|lv| - 1], i, l), q) <==> q != lv[|lv| - 1].price
  {
    var init := lv[..|lv| - 1];
    if q != lv[|lv| - 1].price {
      EvictedPrices(lv, i, l, q);
    } else {
      forall j | 0 <= j <= |init| ensures InsertAt(init, i, l)[j].price != q {
        assert InsertAt(init, i, l)[j] == if j < i then lv[j] else if j == i then l else lv[j - 1];
      }
    }
  }

  lemma {:induction false} LosesNone(o: Outcome, lv: seq<Level>, i: nat, l: Level, q: int)
    requires i <= |lv| && (o.Deleted? || o.Updated? ==> i < |lv| && lv[i].price == l.price) && !Overflows(o)
    requires HasPrice(lv, q) || q == l.price
    requires q == l.price ==> o.Updated? || o.Inserted?
    ensures HasPrice(Edit(o, lv, i, l), q)
  {
    if q == l.price {
      assert Edit(o, lv, i, l)[i].price == q;
    } else {
      EditPrices(o, lv, i, l, q);
    }
  }

  lemma {:induction false} LosesDropped(side: Side, lv: seq<Level>, m: Dict, c: Change, q: Price)
    requires Ok(side, lv) && Within(lv, m)
    ensures Loses(side, lv, m, c, q) <==> q in DroppedAfter(OutcomeOf(side, lv, c.price, c.size), lv, {}, c.price)
  {
    var i, o, l := Cut(side, lv, c.price), OutcomeOf(side, lv, c.price, c.size), Level(c.price, c.size);
    ApplyIsEdit(side, lv, c.price, c.size);
    CutFits(side, lv, c.price);
    if HasPrice(lv, q) || q == c.price {
      if o.Evicted? {
        LosesEvicted(side, lv, m, i, l, q);
      } else if !o.Rejected? && (q == c.price ==> c.size != 0) {
        LosesNone(o, lv, i, l, q);
      }
    }
  }

  lemma {:induction false} LosesEvicted(side: Side, lv: seq<Level>, m: Dict, i: nat, l: Level, q: int)
    requires Ok(side, lv) && Within(lv, m) && i < |lv| && Fits(side, lv, i, l.price) && 0 < l.size
    requires HasPrice(lv, q) || q == l.price
    ensures !HasPrice(InsertAt(lv[..|lv| - 1], i, l), q) && q in m[l.price := l.size] <==> q == lv[|lv| - 1].price
  {
    if q == l.price {
      assert InsertAt(lv[..|lv| - 1], i, l)[i].price == q;
      assert q != lv[|lv| - 1].price;
    } else {
      LosesAtEnd(side, lv, i, l, q);
    }
  }

  /** Some change of the run made the array lose this price. */
  ghost predicate LostOnce(side: Side, run: seq<Change>, q: int) {
    run != [] &&
    var init, c := run[..|run| - 1], run[|run| - 1];
    LostOnce(side, init, q) || Loses(side, Run(side, init), DictRun(init), c, q)
  }

  /** The deletes that took a level out of the array at a time when the dict had outgrown it before. */
  ghost function LateDeletes(side: Side, run: seq<Change>): nat {
    if run == [] then 0 else
      var init, c := run[..|run| - 1], run[|run| - 1];
      LateDeletes(side, init) +
        if !NeverFull(init) && c.size == 0 && HasPrice(Run(side, init), c.price) then 1 else 0
  }

  lemma {:induction false} DeletesBound(side: Side, run: seq<Change>)
    ensures LateDeletes(side, run) <= |run|
  {
    if run != [] {
      DeletesBound(side, run[..|run| - 1]);
    }
  }

  lemma {:induction false} DroppedIsLost(side: Side, run: seq<Change>, q: Price)
    ensures q in Follow(side, run).dropped <==> LostOnce(side, run, q)
  {
    if run != [] {
      var init, c := run[..|run| - 1], run[|run| - 1];
      DroppedIsLost(side, init, q);
      var n := FollowInv(side, init);
      FollowRuns(side, init);
      LosesDropped(side, Run(side, init), DictRun(init), c, q);
    }
  }

  lemma {:induction false} DeletesAreLate(side: Side, run: seq<Change>)
    ensures Follow(side, run).deletes == LateDeletes(side, run)
  {
    if run != [] {
      var init, c := run[..|run| - 1], run[|run| - 1];
      DeletesAreLate(side, init);
      var n := FollowInv(side, init);
      FollowRuns(side, init);
      CutFits(side, Run(side, init), c.price);
      DroppedIffFull(side, init);
    }
  }

  /** So while those are fewer than 64 the best price and size are the dict's. */
  lemma {:induction false} FewLateDeletes(side: Side, run: seq<Change>)
    requires NeverFull(run) || LateDeletes(side, run) < 64
    ensures SameBest(side, Run(side, run), DictRun(run))
  {
    DroppedIffFull(side, run);
    DeletesAreLate(side, run);
    var c := BestSurvives(side, run);
  }

  /** A side has dropped something iff its dict has outgrown it some time. */
  lemma {:induction false} DroppedIffFull(side: Side, run: seq<Change>)
    ensures Follow(side, run).dropped == {} <==> NeverFull(run)
  {
    if NeverFull(run) {
      NeverDropped(side, run);
    } else {
      FullDrops(side, run);
    }
  }

  lemma {:induction false} FullDrops(side: Side, run: seq<Change>)
    requires !NeverFull(run)
    ensures Follow(side, run).dropped != {}
  {
    var init := run[..|run| - 1];
    if !NeverFull(init) {
      FullDrops(side, init);
    } else {
      var c := run[|run| - 1];
      RunRepresents(side, init);
      FollowRuns(side, init);
      OverflowIff(side, Run(side, init), DictRun(init), c.price, c.size);
    }
  }

  lemma {:induction false} NeverDropped(side: Side, run: seq<Change>)
    requires NeverFull(run)
    ensures Follow(side, run).dropped == {}
  {
    if run != [] {
      var init, c := run[..|run| - 1], run[|run| - 1];
      NeverDropped(side, init);
      RunRepresents(side, init);
      FollowRuns(side, init);
      OverflowIff(side, Run(side, init), DictRun(init), c.price, c.size);
    }
  }

  // Exactly when the front is right.

  /** A price of the dict that the array lost, and that would belong in front of the i-th level. */
  ghost predicate Hidden(side: Side, lv: seq<Level>, m: Dict, i: nat, q: int) {
    q in m && !HasPrice(lv, q) && (i < |lv| ==> Key(side, q) < Key(side, lv[i].price))
  }

  ghost predicate AnyHidden(side: Side, lv: seq<Level>, m: Dict, i: nat) {
    exists q :: Hidden(side, lv, m, i, q)
  }

  /** The front is the dict's best iff the array lost no better price. */
  lemma FrontRight(side: Side, lv: seq<Level>, m: Dict)
    requires Ok(side, lv) && Within(lv, m)
    ensures SameBest(side, lv, m) <==> !AnyHidden(side, lv, m, 0)
  {
    if !AnyHidden(side, lv, m, 0) {
      FrontIsBest(side, lv, m);
    }
  }

  lemma FrontIsBest(side: Side, lv: seq<Level>, m: Dict)
    requires Ok(side, lv) && Within(lv, m) && !AnyHidden(side, lv, m, 0)
    ensures SameBest(side, lv, m)
  {
    forall q | q in m ensures lv != [] && Key(side, lv[0].price) <= Key(side, q) {
      assert !Hidden(side, lv, m, 0, q);
      if HasPrice(lv, q) {
        var j :| 0 <= j < |lv| && lv[j].price == q;
      }
    }
    if lv != [] {
      assert lv[0].price in m;
    } else {
      SomeKey(m.Keys);
    }
  }

  /** The update takes the best level away while the array lacks a price that comes before the next one. */
  ghost predicate Uncovers(side: Side, lv: seq<Level>, m: Dict, p: Price, size: Size) {
    size == 0 && lv != [] && lv[0].price == p && AnyHidden(side, lv, m, 1)
  }

  /** Where the front is right, one update makes it wrong exactly if it uncovers a lost price. */
  lemma {:induction false} FrontGoesWrong(side: Side, lv: seq<Level>, m: Dict, p: Price, size: Size)
    requires Ok(side, lv) && Within(lv, m) && SameBest(side, lv, m)
    ensures SameBest(side, Apply(side, lv, p, size), DictApply(m, p, size)) <==> !Uncovers(side, lv, m, p, size)
  {
    var lv', m' := Apply(side, lv, p, size), DictApply(m, p, size);
    ApplyOk(side, lv, p, size);
    ApplyWithin(side, lv, m, p, size);
    FrontRight(side, lv, m);
    FrontRight(side, lv', m');
    if Uncovers(side, lv, m, p, size) {
      var q :| Hidden(side, lv, m, 1, q);
      BestTaken(side, lv, m, q);
    } else if AnyHidden(side, lv', m', 0) {
      var q :| Hidden(side, lv', m', 0, q);
      WasHidden(side, lv, m, p, size, q);
    }
  }

  lemma BestTaken(side: Side, lv: seq<Level>, m: Dict, q: int)
    requires Ok(side, lv) && lv != [] && Hidden(side, lv, m, 1, q)
    ensures Hidden(side, Apply(side, lv, lv[0].price, 0), m - {lv[0].price}, 0, q)
  {
    CutUnique(side, lv, lv[0].price, 0);
    ApplyIsEdit(side, lv, lv[0].price, 0);
    assert Apply(side, lv, lv[0].price, 0) == lv[1..];
  }

  /** A price hidden in front after the update was hidden there before, or came next to the level taken away. */
  lemma {:induction false} WasHidden(side: Side, lv: seq<Level>, m: Dict, p: Price, size: Size, q: int)
    requires Ok(side, lv) && Within(lv, m) && Hidden(side, Apply(side, lv, p, size), DictApply(m, p, size), 0, q)
    ensures AnyHidden(side, lv, m, 0) || Uncovers(side, lv, m, p, size)
  {
    var i, l := Cut(side, lv, p), Level(p, size);
    ApplyIsEdit(side, lv, p, size);
    CutFits(side, lv, p);
    match OutcomeOf(side, lv, p, size)
    case DeleteMissing => assert Hidden(side, lv, m, 0, q);
    case Deleted => DeletedHid(side, lv, m, i, q);
    case Updated => UpdatedHid(side, lv, m, i, l, q);
    case Inserted => InsertedHid(side, lv, m, i, l, q);
    case Evicted => EvictedHid(side, lv, m, i, l, q);
    case Rejected => assert Hidden(side, lv, m, 0, q);
  }

  lemma DeletedHid(side: Side, lv: seq<Level>, m: Dict, i: nat, q: int)
    requires i < |lv| && Hidden(side, RemoveAt(lv, i), m - {lv[i].price}, 0, q)
    ensures Hidden(side, lv, m, if i == 0 then 1 else 0, q)
  {
    if HasPrice(lv, q) {
      EditPrices(Deleted, lv, i, lv[i], q);
    }
  }

  lemma UpdatedHid(side: Side, lv: seq<Level>, m: Dict, i: nat, l: Level, q: int)
    requires i < |lv| && lv[i].price == l.price && l.price in m && Hidden(side, lv[i := l], m[l.price := l.size], 0, q)
    ensures Hidden(side, lv, m, 0, q)
  {
    assert lv[i := l][i].price == l.price;
    if HasPrice(lv, q) {
      EditPrices(Updated, lv, i, l, q);
    }
  }

  lemma InsertedHid(side: Side, lv: seq<Level>, m: Dict, i: nat, l: Level, q: int)
    requires Fits(side, lv, i, l.price) && Hidden(side, InsertAt(lv, i, l), m[l.price := l.size], 0, q)
    ensures Hidden(side, lv, m, 0, q)
  {
    assert InsertAt(lv, i, l)[i].price == l.price;
    if HasPrice(lv, q) {
      EditPrices(Inserted, lv, i, l, q);
    }
  }

  lemma EvictedHid(side: Side, lv: seq<Level>, m: Dict, i: nat, l: Level, q: int)
    requires Sorted(side, lv) && i < |lv| && Fits(side, lv, i, l.price)
    requires Hidden(side, InsertAt(lv[..|lv| - 1], i, l), m[l.price := l.size], 0, q)
    ensures Hidden(side, lv, m, 0, q)
  {
    assert InsertAt(lv[..|lv| - 1], i, l)[i].price == l.price;
    if HasPrice(lv, q) {
      EvictedPrices(lv, i, l, q);
    }
  }

  /** The front is the dict's best now and was after every earlier change. */
  ghost predicate AlwaysRight(side: Side, run: seq<Change>) {
    SameBest(side, Run(side, run), DictRun(run)) && (run != [] ==> AlwaysRight(side, run[..|run| - 1]))
  }

  /** No change of the run uncovers a lost price. */
  ghost predicate NeverUncovers(side: Side, run: seq<Change>) {
    run == [] ||
    var init, c := run[..|run| - 1], run[|run| - 1];
    NeverUncovers(side, init) && !Uncovers(side, Run(side, init), DictRun(init), c.price, c.size)
  }

  /** Over whole runs: the best price and size shown are right throughout iff no change uncovers a lost price. */
  lemma {:induction false} RightThroughout(side: Side, run: seq<Change>)
    ensures AlwaysRight(side, run) <==> NeverUncovers(side, run)
  {
    if run != [] {
      var init, c := run[..|run| - 1], run[|run| - 1];
      RightThroughout(side, init);
      if AlwaysRight(side, init) {
        var k := FollowInv(side, init);
        FollowRuns(side, init);
        FrontGoesWrong(side, Run(side, init), DictRun(init), c.price, c.size);
      }
    }
  }

  // 64 is sharp: on this run 65 levels arrive, each worse than the one before, and then the best goes, 64 times over.

  /** The n-th best price of the ladder. */
  function At(side: Side, n: nat): Price
    requires n <= 2 * BOOK_MAX_LEVELS
  {
    if side.Bid? then 0 - n else n
  }

  function Arrivals(side: Side, n: nat): seq<Change>
    requires n <= BOOK_MAX_LEVELS + 1
  {
    if n == 0 then [] else Arrivals(side, n - 1) + [Change(At(side, n), 1)]
  }

  function Drain(side: Side, n: nat): seq<Change>
    requires n <= BOOK_MAX_LEVELS
  {
    if n == 0 then Arrivals(side, BOOK_MAX_LEVELS + 1) else Drain(side, n - 1) + [Change(At(side, n), 0)]
  }

  lemma {:induction false} DrainPrices(side: Side, n: nat)
    requires n <= BOOK_MAX_LEVELS
    ensures Drain(side, n) != [] && forall c | c in Drain(side, n) :: c.price >= 0 - (BOOK_MAX_LEVELS + 1)
  {
    if n == 0 {
      ArrivalPrices(side, BOOK_MAX_LEVELS + 1);
    } else {
      DrainPrices(side, n - 1);
    }
  }

  lemma {:induction false} DrainLength(side: Side, n: nat)
    requires n <= BOOK_MAX_LEVELS
    ensures |Drain(side, n)| == BOOK_MAX_LEVELS + 1 + n
  {
    if n == 0 {
      ArrivalsLength(side, BOOK_MAX_LEVELS + 1);
    } else {
      DrainLength(side, n - 1);
    }
  }

  lemma {:induction false} ArrivalsLength(side: Side, n: nat)
    requires n <= BOOK_MAX_LEVELS + 1
    ensures |Arrivals(side, n)| == n
  {
    if n != 0 {
      ArrivalsLength(side, n - 1);
    }
  }

  lemma {:induction false} ArrivalPrices(side: Side, n: nat)
    requires n <= BOOK_MAX_LEVELS + 1
    ensures n != 0 ==> Arrivals(side, n) != []
    ensures forall c | c in Arrivals(side, n) :: c.price >= 0 - (BOOK_MAX_LEVELS + 1)
  {
    if n != 0 {
      ArrivalPrices(side, n - 1);
    }
  }

  /** Levels of one share at the steps lo, lo + 1, ..., hi of the ladder. */
  function Ladder(side: Side, lo: nat, hi: nat): (lv: seq<Level>)
    requires 0 < lo <= hi + 1 <= BOOK_MAX_LEVELS + 2
    ensures |lv| == hi + 1 - lo && forall i | 0 <= i < |lv| :: lv[i] == Level(At(side, lo + i), 1)
  {
    if lo == hi + 1 then [] else Ladder(side, lo, hi - 1) + [Level(At(side, hi), 1)]
  }

  /** The dict holds one share at each of the steps lo, ..., hi. */
  ghost predicate IsStock(side: Side, m: Dict, lo: nat, hi: nat) {
    forall p: int :: (p in m <==> lo <= Key(side, p) <= hi) && (p in m ==> m[p] == 1)
  }

  lemma {:induction false} LevelArrives(side: Side, t: Track, n: nat)
    requires 0 < n <= BOOK_MAX_LEVELS + 1 && t.lv == Ladder(side, 1, n - 1)
    ensures var t', m := Advance(side, t, At(side, n), 1), t.dict[At(side, n) := 1];
            if n <= BOOK_MAX_LEVELS then t' == Track(Ladder(side, 1, n), m, t.dropped, t.deletes)
            else t' == Track(t.lv, m, t.dropped + {At(side, n)}, t.deletes)
  {
    CutUnique(side, t.lv, At(side, n), n - 1);
    ApplyIsEdit(side, t.lv, At(side, n), 1);
  }

  lemma BestGoes(side: Side, t: Track, n: nat)
    requires 0 < n <= BOOK_MAX_LEVELS && t.lv == Ladder(side, n, BOOK_MAX_LEVELS) && t.dropped != {}
    ensures Advance(side, t, At(side, n), 0) ==
            Track(Ladder(side, n + 1, BOOK_MAX_LEVELS), t.dict - {At(side, n)}, t.dropped, t.deletes + 1)
  {
    CutUnique(side, t.lv, At(side, n), 0);
    ApplyIsEdit(side, t.lv, At(side, n), 0);
  }

  lemma FollowLast(side: Side, run: seq<Change>, c: Change)
    ensures Follow(side, run + [c]) == Advance(side, Follow(side, run), c.price, c.size)
  {
    assert (run + [c])[..|run|] == run;
  }

  lemma StockGrows(side: Side, m: Dict, hi: nat)
    requires hi <= BOOK_MAX_LEVELS && IsStock(side, m, 1, hi)
    ensures IsStock(side, m[At(side, hi + 1) := 1], 1, hi + 1)
  {
  }

  lemma StockShrinks(side: Side, m: Dict, lo: nat)
    requires lo <= BOOK_MAX_LEVELS && IsStock(side, m, lo, BOOK_MAX_LEVELS + 1)
    ensures IsStock(side, m - {At(side, lo)}, lo + 1, BOOK_MAX_LEVELS + 1)
  {
  }

  lemma {:induction false} LadderStock(side: Side, n: nat)
    requires n <= BOOK_MAX_LEVELS + 1
    ensures IsStock(side, DictRun(Arrivals(side, n)), 1, n)
  {
    if n != 0 {
      LadderStock(side, n - 1);
      RunLast(side, Arrivals(side, n - 1), Change(At(side, n), 1));
      StockGrows(side, DictRun(Arrivals(side, n - 1)), n - 1);
    }
  }

  lemma {:induction false} DrainStock(side: Side, n: nat)
    requires n <= BOOK_MAX_LEVELS
    ensures IsStock(side, DictRun(Drain(side, n)), n + 1, BOOK_MAX_LEVELS + 1)
  {
    if n == 0 {
      LadderStock(side, BOOK_MAX_LEVELS + 1);
    } else {
      DrainStock(side, n - 1);
      RunLast(side, Drain(side, n - 1), Change(At(side, n), 0));
      StockShrinks(side, DictRun(Drain(side, n - 1)), n);
    }
  }

  lemma {:induction false} LadderFills(side: Side, n: nat)
    requires n <= BOOK_MAX_LEVELS
    ensures var t := Follow(side, Arrivals(side, n));
            t.lv == Ladder(side, 1, n) && t.dropped == {} && t.deletes == 0
  {
    if n != 0 {
      LadderFills(side, n - 1);
      FollowLast(side, Arrivals(side, n - 1), Change(At(side, n), 1));
      LevelArrives(side, Follow(side, Arrivals(side, n - 1)), n);
    }
  }

  lemma {:induction false} OneTooMany(side: Side)
    ensures var t := Follow(side, Arrivals(side, BOOK_MAX_LEVELS + 1));
            t.lv == Ladder(side, 1, BOOK_MAX_LEVELS) && t.dropped == {At(side, BOOK_MAX_LEVELS + 1)} && t.deletes == 0
  {
    var run := Arrivals(side, BOOK_MAX_LEVELS);
    LadderFills(side, BOOK_MAX_LEVELS);
    FollowLast(side, run, Change(At(side, BOOK_MAX_LEVELS + 1), 1));
    LevelArrives(side, Follow(side, run), BOOK_MAX_LEVELS + 1);
  }

  lemma {:induction false} DrainEmpties(side: Side, n: nat)
    requires n <= BOOK_MAX_LEVELS
    ensures var t := Follow(side, Drain(side, n));
            && t.lv == Ladder(side, n + 1, BOOK_MAX_LEVELS)
            && t.dropped == {At(side, BOOK_MAX_LEVELS + 1)} && t.deletes == n
  {
    if n == 0 {
      OneTooMany(side);
    } else {
      DrainEmpties(side, n - 1);
      FollowLast(side, Drain(side, n - 1), Change(At(side, n), 0));
      BestGoes(side, Follow(side, Drain(side, n - 1)), n);
    }
  }

  lemma OneLeft(side: Side, m: Dict)
    requires IsStock(side, m, BOOK_MAX_LEVELS + 1, BOOK_MAX_LEVELS + 1)
    ensures m == map[At(side, BOOK_MAX_LEVELS + 1) := 1]
  {
    var last := At(side, BOOK_MAX_LEVELS + 1);
    SomeKey(m.Keys - {last});
    assert m.Keys == {last};
  }

  /** An empty array next to a dict with one price, `n` deletes after the first drop. */
  function Emptied(side: Side, n: nat): Track {
    var last := At(side, BOOK_MAX_LEVELS + 1);
    Track([], map[last := 1], {last}, n)
  }

  lemma {:induction false} Drained(side: Side)
    ensures Follow(side, Drain(side, BOOK_MAX_LEVELS)) == Emptied(side, BOOK_MAX_LEVELS)
  {
    DrainEmpties(side, BOOK_MAX_LEVELS);
    FollowRuns(side, Drain(side, BOOK_MAX_LEVELS));
    DrainStock(side, BOOK_MAX_LEVELS);
    OneLeft(side, DictRun(Drain(side, BOOK_MAX_LEVELS)));
  }

  lemma EmptiedIsWrong(side: Side, run: seq<Change>, n: nat)
    requires Follow(side, run) == Emptied(side, n)
    ensures Run(side, run) == [] && DictRun(run) == map[At(side, BOOK_MAX_LEVELS + 1) := 1]
    ensures !SameBest(side, Run(side, run), DictRun(run))
  {
    FollowRuns(side, run);
    assert At(side, BOOK_MAX_LEVELS + 1) in DictRun(run);
  }

  /** With the 64th delete the array can be empty while the dict still has a price, on either side. */
  lemma {:induction false} HorizonIsSharp(side: Side)
    ensures var run := Drain(side, BOOK_MAX_LEVELS);
            && !NeverFull(run) && LateDeletes(side, run) == 64
            && Run(side, run) == [] && DictRun(run) == map[At(side, BOOK_MAX_LEVELS + 1) := 1]
            && !SameBest(side, Run(side, run), DictRun(run))
  {
    Drained(side);
    DroppedIffFull(side, Drain(side, BOOK_MAX_LEVELS));
    DeletesAreLate(side, Drain(side, BOOK_MAX_LEVELS));
    EmptiedIsWrong(side, Drain(side, BOOK_MAX_LEVELS), BOOK_MAX_LEVELS);
  }

  /** The front is the dict's best after every run with just `k` deletes since its dict first outgrew the array. */
  ghost predicate SafeDeletes(side: Side, k: nat) {
    forall run: seq<Change> | !NeverFull(run) && LateDeletes(side, run) == k ::
      SameBest(side, Run(side, run), DictRun(run))
  }

  lemma ComesAndGoes(side: Side, n: nat)
    ensures var p := At(side, BOOK_MAX_LEVELS + 2);
            Advance(side, Advance(side, Emptied(side, n), p, 1), p, 0) == Emptied(side, n + 1)
  {
    var p, m := At(side, BOOK_MAX_LEVELS + 2), Emptied(side, n).dict;
    CutUnique(side, [], p, 0);
    CutUnique(side, [Level(p, 1)], p, 0);
    ApplyIsEdit(side, [], p, 1);
    ApplyIsEdit(side, [Level(p, 1)], p, 0);
    assert m[p := 1] - {p} == m;
  }

  lemma OnceMore(side: Side, run: seq<Change>, n: nat) returns (more: seq<Change>)
    requires Follow(side, run) == Emptied(side, n)
    ensures Follow(side, more) == Emptied(side, n + 1)
  {
    var p := At(side, BOOK_MAX_LEVELS + 2);
    FollowLast(side, run, Change(p, 1));
    FollowLast(side, run + [Change(p, 1)], Change(p, 0));
    ComesAndGoes(side, n);
    more := run + [Change(p, 1)] + [Change(p, 0)];
  }

  /** A level worse than the ladder comes and goes until `n` deletes are reached; the array stays wrong. */
  lemma {:induction false} StaysWrong(side: Side, n: nat) returns (run: seq<Change>)
    requires BOOK_MAX_LEVELS <= n
    ensures Follow(side, run) == Emptied(side, n)
    decreases n
  {
    if n == BOOK_MAX_LEVELS {
      Drained(side);
      run := Drain(side, BOOK_MAX_LEVELS);
    } else {
      var before := StaysWrong(side, n - 1);
      run := OnceMore(side, before, n - 1);
    }
  }

  /** On both sides: `k` deletes since the first drop are safe on every run iff they are fewer than 64. */
  lemma {:induction false} HorizonExact(side: Side, k: nat)
    ensures SafeDeletes(side, k) <==> k < 64
  {
    if k < BOOK_MAX_LEVELS {
      forall run: seq<Change> | !NeverFull(run) && LateDeletes(side, run) == k
        ensures SameBest(side, Run(side, run), DictRun(run))
      {
        FewLateDeletes(side, run);
      }
    } else {
      var run := StaysWrong(side, k);
      EmptiedIsWrong(side, run, k);
      DroppedIffFull(side, run);
      DeletesAreLate(side, run);
      assert !NeverFull(run) && LateDeletes(side, run) == k;
    }
  }
}
