/** Symbol keys to dense indices: an open-addressing table that never deletes. */
module SymTab {
  import opened Sequences
  import opened Words

  const SLOTS: nat := 16384
  const MAX_SYMBOLS: nat := 9216
  const INVALID: nat := 0xFFFF_FFFF

  /** Fibonacci hashing: the top 14 bits of the product. The table is correct for any hash into the slots. */
  function SymHash(key: Word): (slot: nat)
    ensures slot < SLOTS
  {
    Wrap(key * 0x9E37_79B9_7F4A_7C15) / 0x4_0000_0000_0000
  }

  /** The top 14 of the 64 bits of the product. */
  lemma HashIsTopBits(key: Word)
    ensures var product, h := (key * 11400714819323198485) % WORD, SymHash(key);
            h * Pow2(50) <= product < h * Pow2(50) + Pow2(50) && h < Pow2(14) == SLOTS
  {
    HashShift();
  }

  lemma HashShift()
    ensures Pow2(50) == 0x4_0000_0000_0000 && Pow2(14) == SLOTS
  {
    assert Pow2(7) == 128;
    Pow2Sum(7, 7);
    assert Pow2(10) == 1024;
    Pow2Sum(10, 10);
    Pow2Sum(20, 20);
    Pow2Sum(40, 10);
  }

  // What the table stands for: the distinct keys seen so far, numbered by first appearance. Key 0 marks an empty slot;
  // asked for it, the search stops at the first such slot and takes the index that memset left there.

  function Interned(names: seq<Word>, key: Word): seq<Word> {
    if key == 0 || key in names || |names| >= MAX_SYMBOLS then names else names + [key]
  }

  function IndexOf(names: seq<Word>, key: Word): (i: nat)
    ensures i <= |names|
    ensures i < |names| ==> names[i] == key
    ensures key in names ==> i < |names|
  {
    if names == [] then 0 else if names[0] == key then 0 else 1 + IndexOf(names[1..], key)
  }

  /** The index a key gets: its own if it has one, the next free one if there is one; key 0 is always told 0. */
  function Answer(names: seq<Word>, key: Word): nat {
    if key == 0 then 0
    else if key in Interned(names, key) then IndexOf(Interned(names, key), key) else INVALID
  }

  function NamesAfter(keys: seq<Word>): seq<Word> {
    if keys == [] then [] else Interned(NamesAfter(keys[..|keys| - 1]), keys[|keys| - 1])
  }

  lemma IndexOfUnique(names: seq<Word>, i: nat)
    requires Distinct(names) && i < |names|
    ensures IndexOf(names, names[i]) == i
  {
    var j := IndexOf(names, names[i]);
    assert names[j] == names[i];
  }

  lemma {:induction false} NamesDistinct(keys: seq<Word>)
    ensures Distinct(NamesAfter(keys)) && |NamesAfter(keys)| <= MAX_SYMBOLS
  {
    if keys != [] {
      NamesDistinct(keys[..|keys| - 1]);
    }
  }

  /** The keys that are symbols. */
  function Symbols(keys: seq<Word>): set<Word> {
    Members(keys) - {0}
  }

  lemma SymbolsAdd(keys: seq<Word>, key: Word)
    ensures Symbols(keys + [key]) == if key == 0 then Symbols(keys) else Symbols(keys) + {key}
  {
    MembersAdd(keys, key);
  }

  lemma SymbolsCount(keys: seq<Word>, key: Word)
    requires key != 0
    ensures |Symbols(keys + [key])| == |Symbols(keys)| + if key in keys then 0 else 1
  {
    SymbolsAdd(keys, key);
    if key in keys {
      assert Symbols(keys) + {key} == Symbols(keys);
    } else {
      assert key !in Symbols(keys);
    }
  }

  /** Until the table is full it holds all symbols seen; from then on the first MAX_SYMBOLS of them. */
  ghost predicate Holds(names: seq<Word>, symbols: set<Word>) {
    && |names| == (if |symbols| <= MAX_SYMBOLS then |symbols| else MAX_SYMBOLS)
    && (|symbols| <= MAX_SYMBOLS ==> Members(names) == symbols)
    && Members(names) <= symbols
  }

  lemma HoldsNext(names: seq<Word>, keys: seq<Word>, key: Word)
    requires key != 0 && Holds(names, Symbols(keys))
    ensures Holds(Interned(names, key), Symbols(keys + [key]))
  {
    SymbolsAdd(keys, key);
    SymbolsCount(keys, key);
    MembersAdd(names, key);
    assert key in Symbols(keys) <==> key in keys;
  }

  lemma {:induction false} NamesCount(keys: seq<Word>)
    ensures |NamesAfter(keys)| == if |Symbols(keys)| <= MAX_SYMBOLS then |Symbols(keys)| else MAX_SYMBOLS
    ensures |Symbols(keys)| <= MAX_SYMBOLS ==> Members(NamesAfter(keys)) == Symbols(keys)
  {
    NamesHold(keys);
  }

  lemma {:induction false} NamesHold(keys: seq<Word>)
    ensures Holds(NamesAfter(keys), Symbols(keys))
  {
    if keys != [] {
      var init, last := keys[..|keys| - 1], keys[|keys| - 1];
      NamesHold(init);
      assert keys == init + [last];
      if last == 0 {
        SymbolsAdd(init, last);
      } else {
        HoldsNext(NamesAfter(init), init, last);
      }
    }
  }

  lemma {:induction false} NamesAreKeys(keys: seq<Word>)
    ensures forall k | k in NamesAfter(keys) :: k in keys && k != 0
  {
    if keys != [] {
      NamesAreKeys(keys[..|keys| - 1]);
    }
  }

  lemma {:induction false} NamesGrow(keys: seq<Word>, n: nat)
    requires n <= |keys|
    ensures NamesAfter(keys[..n]) <= NamesAfter(keys)
  {
    if n == |keys| {
      assert keys[..n] == keys;
    } else {
      var init := keys[..|keys| - 1];
      NamesGrow(init, n);
      assert init[..n] == keys[..n];
    }
  }

  /**
    * Over any sequence of calls the symbol that first appears at position `p` has, ever after, the index "number of
    * distinct symbols before it", and no index at all if that number has reached MAX_SYMBOLS.
    */
  lemma {:induction false} NumberedByFirstAppearance(keys: seq<Word>, p: nat)
    requires p < |keys| && keys[p] != 0 && keys[p] !in keys[..p]
    ensures var n := |Symbols(keys[..p])|;
            Answer(NamesAfter(keys), keys[p]) == if n < MAX_SYMBOLS then n else INVALID
  {
    var before := NamesAfter(keys[..p]);
    NamesCount(keys[..p]);
    NamesAreKeys(keys[..p]);
    if |before| < MAX_SYMBOLS {
      assert keys[..p + 1][..p] == keys[..p];
      NamesGrow(keys, p + 1);
      NamesDistinct(keys);
      KnownAnswer(NamesAfter(keys), |before|);
    } else {
      FullStays(keys, p);
    }
  }

  lemma KnownAnswer(names: seq<Word>, i: nat)
    requires Distinct(names) && i < |names| && names[i] != 0
    ensures Answer(names, names[i]) == i
  {
    IndexOfUnique(names, i);
  }

  lemma {:induction false} FullStays(keys: seq<Word>, p: nat)
    requires p <= |keys| && |NamesAfter(keys[..p])| >= MAX_SYMBOLS
    ensures NamesAfter(keys) == NamesAfter(keys[..p])
  {
    if p == |keys| {
      assert keys[..p] == keys;
    } else {
      var init := keys[..|keys| - 1];
      assert init[..p] == keys[..p];
      FullStays(init, p);
    }
  }

  /** What a call was told is what the table says of its key ever after. */
  lemma {:induction false} AnswerStays(keys: seq<Word>, p: nat)
    requires p < |keys|
    ensures Answer(NamesAfter(keys), keys[p]) == Answer(NamesAfter(keys[..p]), keys[p])
  {
    var before, key := NamesAfter(keys[..p]), keys[p];
    if key != 0 && key in Interned(before, key) {
      assert keys[..p + 1][..p] == keys[..p];
      NamesGrow(keys, p + 1);
      NamesDistinct(keys);
      KnownAnswer(NamesAfter(keys), IndexOf(Interned(before, key), key));
    } else if key != 0 {
      FullStays(keys, p);
    }
  }

  lemma {:induction false} AnsweredIsNamed(keys: seq<Word>, key: Word)
    requires key in keys && key != 0 && Answer(NamesAfter(keys), key) != INVALID
    ensures key in NamesAfter(keys)
    ensures NamesAfter(keys)[Answer(NamesAfter(keys), key)] == key
  {
    NamesCount(keys);
    assert key in Symbols(keys);
    assert key in Members(NamesAfter(keys)) ==> key in NamesAfter(keys);
  }

  /**
    * Two keys share an index iff one is the key 0 and the other the first symbol: the one collision of the table, for
    * every sequence of calls.
    */
  lemma {:induction false} SharedIndex(keys: seq<Word>, k: Word, l: Word)
    requires k in keys && l in keys && k != l
    requires Answer(NamesAfter(keys), k) != INVALID && Answer(NamesAfter(keys), l) != INVALID
    ensures var names := NamesAfter(keys);
            Answer(names, k) == Answer(names, l) <==>
            names != [] && ((k == 0 && l == names[0]) || (l == 0 && k == names[0]))
  {
    NamesDistinct(keys);
    NamesAreKeys(keys);
    if k != 0 {
      AnsweredIsNamed(keys, k);
    }
    if l != 0 {
      AnsweredIsNamed(keys, l);
    }
    if NamesAfter(keys) != [] {
      assert NamesAfter(keys)[0] in NamesAfter(keys);
      KnownAnswer(NamesAfter(keys), 0);
    }
  }

  /** The shortest such run: a symbol, then the key 0, which is told the symbol's index. */
  lemma ZeroCollides(key: Word)
    requires key != 0
    ensures var keys: seq<Word> := [key, 0];
            && NamesAfter(keys) == [key]
            && Answer(NamesAfter(keys[..0]), keys[0]) == Answer(NamesAfter(keys[..1]), keys[1]) == 0
  {
    var keys: seq<Word> := [key, 0];
    assert keys[..1] == [key] && keys[..0] == [] && [key][..0] == [];
    assert NamesAfter([key]) == [key];
  }

  // The table itself.

  /** The slot `d` steps after `from`, going round. */
  function Probe(from: nat, d: nat): nat {
    (from + d) % SLOTS
  }

  lemma ProbeNext(from: nat, d: nat)
    ensures (Probe(from, d) + 1) % SLOTS == Probe(from, d + 1)
  {
  }

  function Distance(from: nat, slot: nat): nat {
    (slot - from) % SLOTS
  }

  /** A run of occupied slots leads from the key's hash to its slot. */
  ghost predicate Reachable(keys: seq<Word>, from: nat, slot: nat) {
    |keys| == SLOTS && forall d | 0 <= d < Distance(from, slot) :: keys[Probe(from, d)] != 0
  }

  lemma ProbeDistance(from: nat, slot: nat)
    requires from < SLOTS && slot < SLOTS
    ensures Distance(from, slot) < SLOTS && Probe(from, Distance(from, slot)) == slot
  {
  }

  lemma DistanceProbe(from: nat, d: nat)
    requires from < SLOTS && d < SLOTS
    ensures Distance(from, Probe(from, d)) == d
  {
  }

  /** A search that has reached an empty slot has passed every slot it could still lead to. */
  lemma NotBehind(keys: seq<Word>, from: nat, slot: nat, probe: nat, key: Word)
    requires Reachable(keys, from, slot) && from < SLOTS && slot < SLOTS && probe < SLOTS && key != 0
    requires forall d | 0 <= d < probe :: keys[Probe(from, d)] != key
    requires keys[Probe(from, probe)] == 0
    ensures keys[slot] != key
  {
    ProbeDistance(from, slot);
  }

  /** Filling a slot keeps every run of occupied slots. */
  lemma ReachableGrows(keys: seq<Word>, i: nat, key: Word, from: nat, slot: nat)
    requires Reachable(keys, from, slot) && i < SLOTS && key != 0
    ensures Reachable(keys[i := key], from, slot)
  {
    var keys' := keys[i := key];
    forall d | 0 <= d < Distance(from, slot)
      ensures keys'[Probe(from, d)] != 0
    {
      assert keys[Probe(from, d)] != 0;
    }
  }

  function Upto(n: nat): (s: set<nat>)
    ensures forall x :: x in s <==> 0 <= x < n
  {
    if n == 0 then {} else Upto(n - 1) + {n - 1}
  }

  lemma {:induction false} UptoCount(n: nat)
    ensures |Upto(n)| == n
  {
    if n != 0 {
      UptoCount(n - 1);
    }
  }

  /** Slots that are told apart by an index into `slotOf` are no more than its length. */
  lemma Pigeonhole(slots: nat, slotOf: seq<nat>, idxs: seq<nat>)
    requires |idxs| == slots && forall s | 0 <= s < slots :: idxs[s] < |slotOf| && slotOf[idxs[s]] == s
    ensures slots <= |slotOf|
  {
    UptoCount(slots);
    MemberCount(slotOf);
    var used := Members(slotOf);
    forall s | s in Upto(slots)
      ensures s in used
    {
      assert slotOf[idxs[s]] in used;
    }
    assert used == Upto(slots) + (used - Upto(slots));
  }

  lemma Known(names: seq<Word>, key: Word, i: nat)
    requires Distinct(names) && i < |names| <= MAX_SYMBOLS && names[i] == key != 0
    ensures Answer(names, key) == i && i != INVALID && Interned(names, key) == names
  {
    IndexOfUnique(names, i);
  }

  lemma Fresh(names: seq<Word>, key: Word)
    requires Distinct(names) && |names| < MAX_SYMBOLS && key !in names && key != 0
    ensures Answer(names, key) == |names| && |names| != INVALID && Interned(names, key) == names + [key]
  {
    IndexOfUnique(names + [key], |names|);
  }

  lemma Refused(names: seq<Word>, key: Word)
    requires |names| >= MAX_SYMBOLS && key !in names && key != 0
    ensures Answer(names, key) == INVALID == 0xFFFF_FFFF && Interned(names, key) == names
  {
  }

  class Table {
    const hash: Word -> nat
    const keys: array<Word>    // 0 marks an empty slot
    const idxs: array<nat>
    const name: array<Word>
    var count: nat
    var fullDrops: nat
    ghost var slotOf: seq<nat>    // where each index lives

    ghost predicate Valid()
      reads this, keys, idxs, name
    {
      && (forall k: Word :: hash(k) < SLOTS)
      && keys.Length == idxs.Length == SLOTS && name.Length == MAX_SYMBOLS
      && keys != name && keys as object != idxs && name as object != idxs
      && count == |slotOf| <= MAX_SYMBOLS
      && Distinct(name[..count])
      && (forall s | 0 <= s < SLOTS && keys[s] != 0 ::
            idxs[s] < count && name[idxs[s]] == keys[s] && slotOf[idxs[s]] == s)
      && (forall i | 0 <= i < count ::
            slotOf[i] < SLOTS && keys[slotOf[i]] == name[i] != 0 && idxs[slotOf[i]] == i)
      && (forall i | 0 <= i < count :: Reachable(keys[..], hash(name[i]), slotOf[i]))
      && Blank()
    }

    /** What was never written is still zero. */
    ghost predicate Blank()
      reads this, keys, idxs, name
      requires keys.Length == idxs.Length == SLOTS && name.Length == MAX_SYMBOLS
    {
      && (forall i | count <= i < MAX_SYMBOLS :: name[i] == 0)
      && (forall s | 0 <= s < SLOTS && keys[s] == 0 :: idxs[s] == 0)
    }

    ghost function Names(): seq<Word>
      reads this, name
      requires count <= name.Length
    {
      name[..count]
    }

    ghost function Repr(): set<object> {
      {this, keys, idxs, name}
    }

    constructor (hash: Word -> nat)
      requires forall k: Word :: hash(k) < SLOTS
      ensures Valid() && fresh(Repr()) && Names() == [] && fullDrops == 0
    {
      this.hash := hash;
      keys := new Word[SLOTS](_ => 0);
      idxs := new nat[SLOTS](_ => 0);
      name := new Word[MAX_SYMBOLS](_ => 0);
      count, fullDrops := 0, 0;
      slotOf := [];
    }

    /** Fewer indices than slots, so some slot is always empty. */
    lemma SomeEmpty() returns (slot: nat)
      requires Valid()
      ensures slot < SLOTS && keys[slot] == 0
    {
      if forall s | 0 <= s < SLOTS :: keys[s] != 0 {
        Pigeonhole(SLOTS, slotOf, idxs[..]);
      }
      slot :| slot < SLOTS && keys[slot] == 0;
    }

    lemma EmptyAhead(from: nat) returns (lap: nat)
      requires Valid() && from < SLOTS
      ensures lap < SLOTS && keys[Probe(from, lap)] == 0
    {
      var empty := SomeEmpty();
      lap := Distance(from, empty);
      ProbeDistance(from, empty);
    }

    /** Having met an empty slot, the search knows that the key is nowhere in the table. */
    lemma Absent(key: Word, probe: nat)
      requires Valid() && key != 0 && probe < SLOTS
      requires forall d | 0 <= d < probe :: keys[Probe(hash(key), d)] != key
      requires keys[Probe(hash(key), probe)] == 0
      ensures key !in Names()
    {
      forall i | 0 <= i < count
        ensures name[i] != key
      {
        if name[i] == key {
          NotBehind(keys[..], hash(key), slotOf[i], probe, key);
        }
      }
    }

    /** Takes the empty slot that ends the search for a key not in the table. */
    method Claim(key: Word, slot: nat, ghost probe: nat) returns (idx: nat)
      requires Valid() && key != 0 && key !in Names() && count < MAX_SYMBOLS
      requires probe < SLOTS && slot == Probe(hash(key), probe) && keys[slot] == 0
      requires forall d | 0 <= d < probe :: keys[Probe(hash(key), d)] != 0
      modifies this, keys, idxs, name
      ensures Valid() && Names() == old(Names()) + [key]
      ensures idx == old(count) && fullDrops == old(fullDrops)
    {
      ghost var before, names := keys[..], Names();
      idx := count;
      count := count + 1;
      keys[slot] := key;
      idxs[slot] := idx;
      name[idx] := key;
      slotOf := slotOf + [slot];
      assert name[..count] == names + [key];
      assert keys[..] == before[slot := key];
      DistanceProbe(hash(key), probe);
      forall i | 0 <= i < count
        ensures Reachable(keys[..], hash(name[i]), slotOf[i])
      {
        if i < idx {
          ReachableGrows(before, slot, key, hash(names[i]), slotOf[i]);
        }
      }
    }

    /** No slot before the n-th of the search is empty or has the key. */
    ghost predicate Passed(key: Word, n: nat)
      requires keys.Length == SLOTS
      reads keys
    {
      forall d | 0 <= d < n :: keys[Probe(hash(key), d)] != 0 && keys[Probe(hash(key), d)] != key
    }

    /** The empty slot that ends the search for a key: the table is full, or the key gets it. */
    method Miss(key: Word, slot: nat, ghost probe: nat) returns (idx: nat)
      requires Valid() && key != 0
      requires probe < SLOTS && slot == Probe(hash(key), probe) && keys[slot] == 0 && Passed(key, probe)
      modifies this, keys, idxs, name
      ensures Valid()
      ensures idx == Answer(old(Names()), key)
      ensures Names() == Interned(old(Names()), key)
      ensures fullDrops == old(fullDrops) + if idx == INVALID then 1 else 0
    {
      Absent(key, probe);
      if count >= MAX_SYMBOLS {
        Refused(Names(), key);
        fullDrops := fullDrops + 1;
        return INVALID;
      }
      Fresh(Names(), key);
      idx := Claim(key, slot, probe);
    }

    /** The probe loop: the first slot that has the key or is empty; a full lap would need more than MAX_SYMBOLS. */
    method Search(key: Word) returns (i: nat, ghost probe: nat)
      requires Valid()
      ensures probe < SLOTS && i == Probe(hash(key), probe) && Passed(key, probe)
      ensures i < SLOTS && (keys[i] == key || keys[i] == 0)
    {
      i := hash(key);
      var n := 0;
      ghost var lap := EmptyAhead(i);
      while n < SLOTS
        invariant n <= SLOTS && i == Probe(hash(key), n) && Passed(key, n)
      {
        if keys[i] == key || keys[i] == 0 {
          probe := n;
          return;
        }
        ProbeNext(hash(key), n);
        i := (i + 1) % SLOTS;
        n := n + 1;
      }
      assert false;
    }

    method Intern(key: Word) returns (idx: nat)
      requires Valid()
      modifies this, keys, idxs, name
      ensures Valid()
      ensures idx == Answer(old(Names()), key)
      ensures Names() == Interned(old(Names()), key)
      ensures fullDrops == old(fullDrops) + if idx == INVALID then 1 else 0
    {
      var i;
      ghost var probe;
      i, probe := Search(key);
      if keys[i] == key {
        if key != 0 {
          Known(Names(), key, idxs[i]);
        }
        return idxs[i];
      }
      idx := Miss(key, i, probe);
    }
  }
}
