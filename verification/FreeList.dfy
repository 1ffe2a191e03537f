/** The CAS free list: the pool as one object, and one allocating thread against any number of freeing threads. */
module FreeList {
  import opened Sequences

  const NIL: nat := 0xFFFF_FFFF

  /** `list` is what following `next` from `head` visits, and the walk ends. */
  ghost predicate Chain(next: seq<nat>, head: nat, list: seq<nat>) {
    && head == HeadOf(list)
    && (forall i | 0 <= i < |list| :: list[i] < |next|)
    && (forall i | 0 <= i < |list| :: next[list[i]] == HeadOf(list[i + 1..]))
    && Distinct(list)
  }

  function HeadOf(list: seq<nat>): nat {
    if list == [] then NIL else list[0]
  }

  lemma ChainPop(next: seq<nat>, head: nat, list: seq<nat>)
    requires Chain(next, head, list) && list != []
    ensures Chain(next, next[head], list[1..])
    ensures Members(list) == {head} + Members(list[1..]) && head !in Members(list[1..])
  {
    var rest := list[1..];
    forall i | 0 <= i < |rest|
      ensures rest[i] < |next| && next[rest[i]] == HeadOf(rest[i + 1..])
    {
      assert rest[i] == list[i + 1];
      assert rest[i + 1..] == list[i + 2..];
    }
  }

  lemma ChainPush(next: seq<nat>, head: nat, list: seq<nat>, slot: nat)
    requires Chain(next, head, list) && slot < |next| && slot !in list && next[slot] == head
    ensures Chain(next, slot, [slot] + list)
    ensures Members([slot] + list) == {slot} + Members(list)
  {
    var list' := [slot] + list;
    assert list'[1..] == list;
    forall i | 0 <= i < |list'|
      ensures list'[i] < |next| && next[list'[i]] == HeadOf(list'[i + 1..])
    {
      if i > 0 {
        assert list'[i] == list[i - 1];
        assert list'[i + 1..] == list[i..];
      }
    }
  }

  /** Storing into a slot outside the list leaves the list alone. */
  lemma ChainFrame(next: seq<nat>, head: nat, list: seq<nat>, slot: nat, value: nat)
    requires Chain(next, head, list) && slot < |next| && slot !in list
    ensures Chain(next[slot := value], head, list)
  {
  }

  // The pool as one object, its CAS loops run without interference.

  /** Indices 0, 1, ..., n - 1. */
  function Ascending(n: nat): (s: seq<nat>)
    ensures |s| == n && forall i | 0 <= i < n :: s[i] == i
  {
    seq(n, i => i)
  }

  class Pool {
    var freeHead: nat
    const next: array<nat>

    /** `free` lists the free slots, the next one to hand out first. */
    ghost predicate Holds(free: seq<nat>)
      reads this, next
    {
      next.Length <= NIL && Chain(next[..], freeHead, free)
    }

    constructor (capacity: nat)
      requires 0 < capacity <= NIL
      ensures fresh(next) && next.Length == capacity
      ensures Holds(Ascending(capacity))
    {
      next := new nat[capacity];
      freeHead := 0;
      new;
      var i := 0;
      while i < capacity
        invariant i <= capacity && freeHead == 0
        invariant forall k | 0 <= k < i :: next[k] == if k + 1 < capacity then k + 1 else NIL
      {
        next[i] := if i + 1 < capacity then i + 1 else NIL;
        i := i + 1;
      }
    }

    /** Takes the first free slot, or NIL from an empty list; the weak CAS fails spuriously `spurious` times. */
    method Alloc(spurious: nat, ghost free: seq<nat>) returns (slot: nat)
      requires Holds(free)
      modifies this`freeHead
      ensures slot == HeadOf(free)
      ensures Holds(if free == [] then [] else free[1..])
    {
      var head, failures := freeHead, spurious;
      while head != NIL
        invariant head == freeHead && freeHead == old(freeHead)
        decreases failures
      {
        var n := next[head];
        if failures == 0 {
          ChainPop(next[..], freeHead, free);
          freeHead := n;
          return head;
        }
        failures := failures - 1;
        head := freeHead;
      }
      return NIL;
    }

    method Free(slot: nat, spurious: nat, ghost free: seq<nat>)
      requires Holds(free) && slot < next.Length && slot !in free
      modifies this`freeHead, next
      ensures Holds([slot] + free)
    {
      var head, failures := freeHead, spurious;
      while true
        invariant head == freeHead && Holds(free)
        decreases failures
      {
        ChainFrame(next[..], freeHead, free, slot, head);
        next[slot] := head;
        if failures == 0 {
          ChainPush(next[..], freeHead, free, slot);
          freeHead := slot;
          return;
        }
        failures := failures - 1;
        head := freeHead;
      }
    }
  }

  // One allocating thread, any number of freeing threads, one atomic access at a time.

  datatype Allocator =
    | Idle
    | Loaded(head: nat)              // has loaded free_head
    | Ready(head: nat, next: nat)    // has loaded slots[head].next as well

  datatype Freeing =
    | Called(slot: nat)              // free was called
    | Sees(slot: nat, head: nat)     // has loaded free_head
    | Linked(slot: nat, head: nat)   // has stored it into slots[slot].next

  datatype State = State(freeHead: nat, next: seq<nat>, alloc: Allocator, frees: map<nat, Freeing>, owned: set<nat>)

  /** Freeing threads are named by numbers. A weak CAS may fail although the comparison would succeed. */
  datatype Action =
    | LoadHead | LoadNext | CasAlloc(spurious: bool)
    | CallFree(thread: nat, slot: nat) | SeeHead(thread: nat) | StoreNext(thread: nat)
    | CasFree(thread: nat, spurious: bool)

  /** A slot is freed by whoever owns it, once. */
  predicate Enabled(s: State, a: Action) {
    match a
    case LoadHead => s.alloc.Idle?
    case LoadNext => s.alloc.Loaded? && s.alloc.head < |s.next|
    case CasAlloc(_) => s.alloc.Ready?
    case CallFree(t, slot) => t !in s.frees && slot in s.owned
    case SeeHead(t) => t in s.frees && s.frees[t].Called?
    case StoreNext(t) => t in s.frees && s.frees[t].Sees? && s.frees[t].slot < |s.next|
    case CasFree(t, _) => t in s.frees && s.frees[t].Linked?
  }

  function LoadedOrNull(head: nat): Allocator {
    if head == NIL then Idle else Loaded(head)
  }

  function Step(s: State, a: Action): State
    requires Enabled(s, a)
  {
    match a
    case LoadHead => s.(alloc := LoadedOrNull(s.freeHead))
    case LoadNext => s.(alloc := Ready(s.alloc.head, s.next[s.alloc.head]))
    case CasAlloc(spurious) =>
      if !spurious && s.freeHead == s.alloc.head then
        s.(freeHead := s.alloc.next, alloc := Idle, owned := s.owned + {s.alloc.head})
      else
        s.(alloc := LoadedOrNull(s.freeHead))
    case CallFree(t, slot) => s.(frees := s.frees[t := Called(slot)], owned := s.owned - {slot})
    case SeeHead(t) => s.(frees := s.frees[t := Sees(s.frees[t].slot, s.freeHead)])
    case StoreNext(t) =>
      var f := s.frees[t];
      s.(next := s.next[f.slot := f.head], frees := s.frees[t := Linked(f.slot, f.head)])
    case CasFree(t, spurious) =>
      var f := s.frees[t];
      if !spurious && s.freeHead == f.head then
        s.(freeHead := f.slot, frees := s.frees - {t})
      else
        s.(frees := s.frees[t := Sees(f.slot, s.freeHead)])
  }

  /** alloc returns NULL in this step. */
  predicate ReturnsNull(s: State, a: Action)
    requires Enabled(s, a)
  {
    (a.LoadHead? || a.CasAlloc?) && Step(s, a).alloc.Idle? && Step(s, a).owned == s.owned
  }

  /** alloc hands out a slot in this step. */
  predicate HandsOut(s: State, a: Action) {
    a.CasAlloc? && s.alloc.Ready? && !a.spurious && s.freeHead == s.alloc.head
  }

  ghost predicate Initial(capacity: nat, s: State) {
    && 0 < capacity <= NIL && |s.next| == capacity
    && Chain(s.next, s.freeHead, Ascending(capacity))
    && s == State(s.freeHead, s.next, Idle, map[], {})
  }

  ghost predicate Moves(s: State, a: Action, s': State) {
    Enabled(s, a) && s' == Step(s, a)
  }

  ghost predicate Execution(capacity: nat, acts: seq<Action>, states: seq<State>) {
    && |states| == |acts| + 1
    && Initial(capacity, states[0])
    && forall i | 0 <= i < |acts| :: Moves(states[i], acts[i], states[i + 1])
  }

  /** The slots reachable from free_head. */
  function FreeSlots(s: State): seq<nat> {
    Walk(s.next, s.freeHead, |s.next|)
  }

  function Walk(next: seq<nat>, head: nat, fuel: nat): seq<nat>
    decreases fuel
  {
    if fuel == 0 || head >= |next| then [] else [head] + Walk(next, next[head], fuel - 1)
  }

  lemma {:induction false} WalkChain(next: seq<nat>, head: nat, list: seq<nat>, fuel: nat)
    requires Chain(next, head, list) && |next| <= NIL && |list| <= fuel
    ensures Walk(next, head, fuel) == list
    decreases fuel
  {
    if list != [] {
      ChainPop(next, head, list);
      WalkChain(next, next[head], list[1..], fuel - 1);
    }
  }

  function BeingFreed(s: State): set<nat> {
    SlotsOf(s.frees)
  }

  function SlotsOf(frees: map<nat, Freeing>): set<nat> {
    set t | t in frees :: frees[t].slot
  }

  ghost predicate SlotsApart(frees: map<nat, Freeing>) {
    forall t, u | t in frees && u in frees && t != u :: frees[t].slot != frees[u].slot
  }

  function AllSlots(capacity: nat): set<nat> {
    Members(Ascending(capacity))
  }

  lemma InAllSlots(capacity: nat, x: nat)
    ensures x in AllSlots(capacity) <==> x < capacity
  {
    if x < capacity {
      assert Ascending(capacity)[x] == x;
    }
  }

  ghost predicate Partition(s: State, free: seq<nat>) {
    && Members(free) !! s.owned && Members(free) !! BeingFreed(s) && s.owned !! BeingFreed(s)
    && Members(free) + s.owned + BeingFreed(s) == AllSlots(|s.next|)
  }

  ghost predicate Inv(s: State, free: seq<nat>) {
    && |s.next| <= NIL
    && Chain(s.next, s.freeHead, free)
    && Partition(s, free)
    && SlotsApart(s.frees)
    && (forall t | t in s.frees && s.frees[t].Linked? ::
          s.frees[t].slot < |s.next| && s.next[s.frees[t].slot] == s.frees[t].head)
    // Only the allocator takes slots out, so what it has read of the list head stays true until its CAS.
    && (!s.alloc.Idle? ==> s.alloc.head in free)
    && (s.alloc.Ready? ==> s.alloc.head < |s.next| && s.alloc.next == s.next[s.alloc.head])
  }

  function FreeAfter(s: State, a: Action, free: seq<nat>): seq<nat>
    requires Enabled(s, a)
  {
    if HandsOut(s, a) && free != [] then free[1..]
    else if a.CasFree? && !a.spurious && s.freeHead == s.frees[a.thread].head then [s.frees[a.thread].slot] + free
    else free
  }

  lemma AllocatorKeeps(s: State, free: seq<nat>, a: Action)
    requires Inv(s, free) && Enabled(s, a) && (a.LoadHead? || a.LoadNext? || a.CasAlloc?)
    ensures Inv(Step(s, a), FreeAfter(s, a, free))
  {
    assert BeingFreed(Step(s, a)) == BeingFreed(s);
    if HandsOut(s, a) {
      ChainPop(s.next, s.freeHead, free);
    }
  }

  /** A thread goes on with the same slot. */
  lemma SameSlots(frees: map<nat, Freeing>, t: nat, f: Freeing)
    requires SlotsApart(frees) && t in frees && f.slot == frees[t].slot
    ensures SlotsApart(frees[t := f]) && SlotsOf(frees[t := f]) == SlotsOf(frees)
  {
    var frees' := frees[t := f];
    assert forall u | u in frees :: frees'[u].slot == frees[u].slot && frees[u].slot in SlotsOf(frees');
    assert forall u | u in frees' :: frees'[u].slot in SlotsOf(frees);
  }

  /** A thread starts on a slot. */
  lemma OneSlotMore(frees: map<nat, Freeing>, t: nat, f: Freeing)
    requires SlotsApart(frees) && t !in frees && f.slot !in SlotsOf(frees)
    ensures SlotsApart(frees[t := f]) && SlotsOf(frees[t := f]) == SlotsOf(frees) + {f.slot}
  {
    var frees' := frees[t := f];
    assert frees'[t].slot in SlotsOf(frees');
    assert forall u | u in frees :: frees'[u] == frees[u] && frees[u].slot in SlotsOf(frees);
    assert forall u | u in frees :: frees'[u].slot in SlotsOf(frees');
  }

  lemma FreeingKeeps(s: State, free: seq<nat>, a: Action)
    requires Inv(s, free) && Enabled(s, a) && (a.SeeHead? || a.StoreNext?)
    ensures Inv(Step(s, a), free)
  {
    var f := s.frees[a.thread];
    assert f.slot in BeingFreed(s);
    if a.SeeHead? {
      SameSlots(s.frees, a.thread, Sees(f.slot, s.freeHead));
    } else {
      SameSlots(s.frees, a.thread, Linked(f.slot, f.head));
      assert f.slot !in Members(free);
      ChainFrame(s.next, s.freeHead, free, f.slot, f.head);
    }
  }

  lemma CallFreeKeeps(s: State, free: seq<nat>, a: Action)
    requires Inv(s, free) && Enabled(s, a) && a.CallFree?
    ensures Inv(Step(s, a), free)
  {
    OneSlotMore(s.frees, a.thread, Called(a.slot));
    assert s.owned - {a.slot} + {a.slot} == s.owned;
  }

  lemma CasFreeKeeps(s: State, free: seq<nat>, a: Action)
    requires Inv(s, free) && Enabled(s, a) && a.CasFree?
    ensures Inv(Step(s, a), FreeAfter(s, a, free))
  {
    var f := s.frees[a.thread];
    assert f.slot in BeingFreed(s);
    if !a.spurious && s.freeHead == f.head {
      assert f.slot !in Members(free);
      ChainPush(s.next, s.freeHead, free, f.slot);
      RemoveThread(s.frees, a.thread);
    } else {
      SameSlots(s.frees, a.thread, Sees(f.slot, s.freeHead));
    }
  }

  lemma InvStep(s: State, free: seq<nat>, a: Action)
    requires Inv(s, free) && Enabled(s, a)
    ensures Inv(Step(s, a), FreeAfter(s, a, free))
  {
    match a
    case CallFree(_, _) => CallFreeKeeps(s, free, a);
    case CasFree(_, _) => CasFreeKeeps(s, free, a);
    case SeeHead(_) => FreeingKeeps(s, free, a);
    case StoreNext(_) => FreeingKeeps(s, free, a);
    case _ => AllocatorKeeps(s, free, a);
  }

  lemma {:induction false} InvAlways(capacity: nat, acts: seq<Action>, states: seq<State>, i: nat)
    returns (free: seq<nat>)
    requires Execution(capacity, acts, states) && i < |states|
    ensures |states[i].next| == capacity && Inv(states[i], free) && FreeSlots(states[i]) == free
  {
    if i == 0 {
      free := Ascending(capacity);
    } else {
      var j := i - 1;
      var before := InvAlways(capacity, acts, states, j);
      assert Moves(states[j], acts[j], states[j + 1]);
      InvStep(states[j], before, acts[j]);
      free := FreeAfter(states[j], acts[j], before);
    }
    ListFits(free, capacity);
    WalkChain(states[i].next, states[i].freeHead, free, capacity);
  }

  lemma ListFits(list: seq<nat>, capacity: nat)
    requires Distinct(list) && Members(list) <= AllSlots(capacity)
    ensures |list| <= capacity
  {
    DistinctCount(list);
    DistinctCount(Ascending(capacity));
    SubsetCount(Members(list), AllSlots(capacity));
  }

  lemma {:induction false} FreeingCount(frees: map<nat, Freeing>)
    requires SlotsApart(frees)
    ensures |SlotsOf(frees)| == |frees|
    decreases |frees|
  {
    if frees != map[] {
      var t :| t in frees;
      var rest := frees - {t};
      assert frees.Keys == rest.Keys + {t};
      FreeingCount(rest);
      RemoveThread(frees, t);
    }
  }

  lemma RemoveThread(frees: map<nat, Freeing>, t: nat)
    requires SlotsApart(frees) && t in frees
    ensures SlotsOf(frees) == SlotsOf(frees - {t}) + {frees[t].slot}
    ensures frees[t].slot !in SlotsOf(frees - {t})
  {
    var rest := frees - {t};
    assert forall u | u in rest :: rest[u] == frees[u];
    forall x | x in SlotsOf(frees)
      ensures x in SlotsOf(rest) + {frees[t].slot}
    {
      var u :| u in frees && frees[u].slot == x;
      assert u == t || u in rest;
    }
  }

  /**
    * In every reachable state the slots reachable from free_head form a list without repetition, and free, owned and
    * being-freed slots partition the pool: nothing is lost and nothing is in two places.
    */
  lemma {:induction false} PoolSafe(capacity: nat, acts: seq<Action>, states: seq<State>, i: nat)
    requires Execution(capacity, acts, states) && i < |states|
    ensures var s := states[i];
            && Chain(s.next, s.freeHead, FreeSlots(s))
            && Partition(s, FreeSlots(s))
            && |s.next| == capacity
            && |FreeSlots(s)| + |s.owned| + |s.frees| == capacity
            && (!s.alloc.Idle? ==> s.alloc.head < capacity)
            && (forall t | t in s.frees :: s.frees[t].slot < capacity)
  {
    var s := states[i];
    var free := InvAlways(capacity, acts, states, i);
    DistinctCount(free);
    DistinctCount(Ascending(capacity));
    FreeingCount(s.frees);
    forall t | t in s.frees
      ensures s.frees[t].slot < capacity
    {
      assert s.frees[t].slot in BeingFreed(s);
      InAllSlots(capacity, s.frees[t].slot);
    }
  }

  /**
    * What each step does: NULL is returned only when the list is empty; a slot handed out was the first free one, so
    * nobody owned it or was freeing it; a completed free puts its slot first; nothing else changes the list.
    */
  lemma {:induction false} StepEffect(capacity: nat, acts: seq<Action>, states: seq<State>, i: nat)
    requires Execution(capacity, acts, states) && i < |acts|
    ensures var s, a, s' := states[i], acts[i], states[i + 1];
            && Enabled(s, a)
            && (ReturnsNull(s, a) ==> FreeSlots(s) == [])
            && (HandsOut(s, a) ==>
                  && FreeSlots(s) == [s.alloc.head] + FreeSlots(s')
                  && s'.owned == s.owned + {s.alloc.head}
                  && s.alloc.head !in s.owned && s.alloc.head !in BeingFreed(s))
            && (a.CasFree? && a.thread !in s'.frees ==> FreeSlots(s') == [s.frees[a.thread].slot] + FreeSlots(s))
            && (!HandsOut(s, a) && !(a.CasFree? && a.thread !in s'.frees) ==> FreeSlots(s') == FreeSlots(s))
  {
    var s, a, s' := states[i], acts[i], states[i + 1];
    assert Moves(s, a, s');
    var free := InvAlways(capacity, acts, states, i);
    var free' := InvAlways(capacity, acts, states, i + 1);
    InvStep(s, free, a);
    ListFits(FreeAfter(s, a, free), capacity);
    WalkChain(s'.next, s'.freeHead, FreeAfter(s, a, free), capacity);
    if HandsOut(s, a) {
      assert s.alloc.head in Members(free);
    }
  }

  /**
    * Each step of the allocating thread, for what it finds: a load of free_head ends the call with NULL iff the list is
    * empty, and the CAS takes its slot iff that is still the first free one and it does not fail for no reason.
    */
  lemma {:induction false} AllocatorStep(capacity: nat, acts: seq<Action>, states: seq<State>, i: nat)
    requires Execution(capacity, acts, states) && i < |acts|
    ensures var s, a, s', list := states[i], acts[i], states[i + 1], FreeSlots(states[i]);
            && (a.LoadHead? ==> s'.alloc == (if list == [] then Idle else Loaded(list[0])) && s'.owned == s.owned)
            && (a.LoadNext? ==> s'.alloc == Ready(s.alloc.head, s.next[s.alloc.head]) && s'.owned == s.owned)
            && (a.CasAlloc? && !a.spurious && list != [] && list[0] == s.alloc.head ==>
                  s'.alloc == Idle && s'.owned == s.owned + {list[0]} && FreeSlots(s') == list[1..])
            && (a.CasAlloc? && (a.spurious || list == [] || list[0] != s.alloc.head) ==>
                  s'.alloc == (if list == [] then Idle else Loaded(list[0])) && s'.owned == s.owned)
  {
    var s := states[i];
    assert Moves(s, acts[i], states[i + 1]);
    var free := InvAlways(capacity, acts, states, i);
    StepEffect(capacity, acts, states, i);
  }

  /** alloc answers NULL exactly where nothing is free. */
  lemma {:induction false} NullIffEmpty(capacity: nat, acts: seq<Action>, states: seq<State>, i: nat)
    requires Execution(capacity, acts, states) && i < |acts| && (acts[i].LoadHead? || acts[i].CasAlloc?)
    ensures Enabled(states[i], acts[i])
    ensures ReturnsNull(states[i], acts[i]) <==> FreeSlots(states[i]) == []
  {
    assert Moves(states[i], acts[i], states[i + 1]);
    AllocatorStep(capacity, acts, states, i);
    StepEffect(capacity, acts, states, i);
  }

  /** Each step of a freeing thread: load free_head, store it into the slot, and swing free_head if it is the same. */
  lemma {:induction false} FreeingStep(capacity: nat, acts: seq<Action>, states: seq<State>, i: nat)
    requires Execution(capacity, acts, states) && i < |acts|
    requires acts[i].SeeHead? || acts[i].StoreNext? || acts[i].CasFree?
    ensures var s, a, s', list := states[i], acts[i], states[i + 1], FreeSlots(states[i]);
            && a.thread in s.frees
            && var slot := s.frees[a.thread].slot;
               && s'.owned == s.owned && s'.alloc == s.alloc
               && (a.SeeHead? ==> s'.frees == s.frees[a.thread := Sees(slot, HeadOf(list))])
               && (a.StoreNext? ==> s'.frees == s.frees[a.thread := Linked(slot, s.frees[a.thread].head)]
                                    && s'.next == s.next[slot := s.frees[a.thread].head])
               && (a.CasFree? && !a.spurious && HeadOf(list) == s.frees[a.thread].head ==>
                     s'.frees == s.frees - {a.thread} && FreeSlots(s') == [slot] + list)
               && (a.CasFree? && (a.spurious || HeadOf(list) != s.frees[a.thread].head) ==>
                     s'.frees == s.frees[a.thread := Sees(slot, HeadOf(list))] && FreeSlots(s') == list)
  {
    assert Moves(states[i], acts[i], states[i + 1]);
    var free := InvAlways(capacity, acts, states, i);
    StepEffect(capacity, acts, states, i);
  }

  /** No thread is ever stuck, and none reads or writes beyond the pool: its next access is always possible. */
  lemma NeverStuck(s: State, free: seq<nat>, t: nat, spurious: bool)
    requires Inv(s, free)
    ensures s.alloc.Idle? ==> Enabled(s, LoadHead)
    ensures s.alloc.Loaded? ==> Enabled(s, LoadNext)
    ensures s.alloc.Ready? ==> Enabled(s, CasAlloc(spurious))
    ensures t !in s.frees ==> forall slot | slot in s.owned :: Enabled(s, CallFree(t, slot))
    ensures t in s.frees ==>
              match s.frees[t]
              case Called(_) => Enabled(s, SeeHead(t))
              case Sees(_, _) => Enabled(s, StoreNext(t))
              case Linked(_, _) => Enabled(s, CasFree(t, spurious))
  {
    if t in s.frees {
      assert s.frees[t].slot in BeingFreed(s);
      InAllSlots(|s.next|, s.frees[t].slot);
    }
    if s.alloc.Loaded? {
      assert s.alloc.head in Members(free);
      InAllSlots(|s.next|, s.alloc.head);
    }
  }

  // Each call by itself, from start to finish.

  /** alloc without interference takes the first free slot, and every step of it is possible. */
  lemma {:induction false} AllocAlone(s: State, free: seq<nat>)
    requires Inv(s, free) && s.alloc.Idle? && free != []
    ensures Enabled(s, LoadHead) && Enabled(Step(s, LoadHead), LoadNext)
    ensures Enabled(Step(Step(s, LoadHead), LoadNext), CasAlloc(false))
    ensures var t := Step(Step(Step(s, LoadHead), LoadNext), CasAlloc(false));
            Inv(t, free[1..]) && t.alloc == Idle && t.owned == s.owned + {free[0]} && t.frees == s.frees
  {
    var t := Step(s, LoadHead);
    InvStep(s, free, LoadHead);
    InvStep(t, free, LoadNext);
    InvStep(Step(t, LoadNext), free, CasAlloc(false));
  }

  /** free without interference puts its slot first, and every step of it is possible. */
  lemma {:induction false} FreeAlone(s: State, free: seq<nat>, t: nat, slot: nat)
    requires Inv(s, free) && t !in s.frees && slot in s.owned
    ensures Enabled(s, CallFree(t, slot)) && Enabled(Step(s, CallFree(t, slot)), SeeHead(t))
    ensures var seen := Step(Step(s, CallFree(t, slot)), SeeHead(t));
            && Enabled(seen, StoreNext(t)) && Enabled(Step(seen, StoreNext(t)), CasFree(t, false))
            && var s' := Step(Step(seen, StoreNext(t)), CasFree(t, false));
               Inv(s', [slot] + free) && s'.owned == s.owned - {slot} && s'.frees == s.frees && s'.alloc == s.alloc
  {
    FreeSees(s, free, t, slot);
    FreeSwings(Step(Step(s, CallFree(t, slot)), SeeHead(t)), free, t);
  }

  lemma {:induction false} FreeSees(s: State, free: seq<nat>, t: nat, slot: nat)
    requires Inv(s, free) && t !in s.frees && slot in s.owned
    ensures Enabled(s, CallFree(t, slot)) && Enabled(Step(s, CallFree(t, slot)), SeeHead(t))
    ensures var seen := Step(Step(s, CallFree(t, slot)), SeeHead(t));
            && Inv(seen, free) && seen.frees == s.frees[t := Sees(slot, s.freeHead)]
            && seen == s.(frees := seen.frees, owned := s.owned - {slot})
  {
    var called := Step(s, CallFree(t, slot));
    InvStep(s, free, CallFree(t, slot));
    InvStep(called, free, SeeHead(t));
    assert called.frees[t := Sees(slot, s.freeHead)] == s.frees[t := Sees(slot, s.freeHead)];
  }

  lemma {:induction false} FreeSwings(s: State, free: seq<nat>, t: nat)
    requires Inv(s, free) && t in s.frees && s.frees[t].Sees? && s.frees[t].head == s.freeHead
    ensures Enabled(s, StoreNext(t)) && Enabled(Step(s, StoreNext(t)), CasFree(t, false))
    ensures var s' := Step(Step(s, StoreNext(t)), CasFree(t, false));
            Inv(s', [s.frees[t].slot] + free) && s'.owned == s.owned && s'.frees == s.frees - {t} && s'.alloc == s.alloc
  {
    assert s.frees[t].slot in BeingFreed(s);
    InAllSlots(|s.next|, s.frees[t].slot);
    var linked := Step(s, StoreNext(t));
    InvStep(s, free, StoreNext(t));
    InvStep(linked, free, CasFree(t, false));
    assert linked.frees - {t} == s.frees - {t};
  }
}
