/** size_t index arithmetic: 64-bit words that wrap, and the slots they select in a ring. */
module Words {

  const WORD: nat := 0x1_0000_0000_0000_0000

  type Word = w: nat | w < WORD

  /** The word that holds an unbounded counter. */
  function Wrap(n: nat): Word {
    n % WORD
  }

  /** `a - b` on size_t. */
  function Minus(a: Word, b: Word): Word {
    (a - b) % WORD
  }

  function Pow2(k: nat): nat {
    if k == 0 then 1 else 2 * Pow2(k - 1)
  }

  /** What the ring macros' static assertion demands of CAPACITY, for a size_t and a non-empty array. */
  ghost predicate Capacity(cap: nat) {
    cap < WORD && exists k :: cap == Pow2(k)
  }

  lemma WrapAdd(n: nat, k: nat)
    ensures Wrap(Wrap(n) + k) == Wrap(n + k)
  {
  }

  lemma MinusCounts(m: nat, n: nat)
    requires m <= n < m + WORD
    ensures Minus(Wrap(n), Wrap(m)) == n - m
  {
  }

  lemma {:induction false} Pow2Divides(j: nat, k: nat)
    requires j <= k
    ensures 0 < Pow2(j) && Pow2(k) % Pow2(j) == 0
    decreases k
  {
    Pow2Positive(j);
    if j < k {
      Pow2Divides(j, k - 1);
      var q := Pow2(k - 1) / Pow2(j);
      assert Pow2(k) == Pow2(j) * (2 * q);
      MultipleMod(Pow2(j), 2 * q);
    } else {
      MultipleMod(Pow2(j), 1);
    }
  }

  lemma {:induction false} Pow2Positive(k: nat)
    ensures 0 < Pow2(k)
  {
    if k != 0 {
      Pow2Positive(k - 1);
    }
  }

  lemma MultipleMod(d: nat, q: nat)
    requires 0 < d
    ensures (d * q) % d == 0
  {
    RemainderUnique(d, q, 0, d * q);
  }

  /** Division with remainder is unique. */
  lemma RemainderUnique(d: nat, q: int, r: nat, n: int)
    requires r < d && n == d * q + r
    ensures n % d == r && n / d == q
  {
    MulGap(d, n / d, q);
    MulGap(d, q, n / d);
  }

  lemma MulGap(d: nat, a: int, b: int)
    ensures a < b ==> d * a + d <= d * b
  {
    if a < b {
      var c: nat := b - a - 1;
      assert 0 <= d * c;
      assert d * (a + 1 + c) == d * a + d + d * c;
    }
  }

  /** Wrapping at 2^64 does not change the slot a counter selects, because a power of two divides 2^64. */
  lemma SlotOfWrap(n: nat, cap: nat)
    requires Capacity(cap)
    ensures 0 < cap && Wrap(n) % cap == n % cap
  {
    var k :| cap == Pow2(k);
    Pow2Positive(k);
    WordIsPow2();
    if k > 64 {
      Pow2Monotone(64, k);
    }
    Pow2Divides(k, 64);
    DividedSlot(n, WORD, cap);
  }

  lemma DividedSlot(n: nat, d: nat, cap: nat)
    requires 0 < cap && 0 < d && d % cap == 0
    ensures (n % d) % cap == n % cap
  {
    var m, a, w := d / cap, n / d, n % d;
    calc {
      n;
      d * a + w;
      { assert d == cap * m; }
      cap * m * a + w;
      { assert w == cap * (w / cap) + w % cap; }
      cap * (m * a) + cap * (w / cap) + w % cap;
      cap * (m * a + w / cap) + w % cap;
    }
    RemainderUnique(cap, m * a + w / cap, w % cap, n);
  }

  lemma WordIsPow2()
    ensures Pow2(64) == WORD
  {
    assert Pow2(8) == 256;
    Pow2Sum(8, 8);
    Pow2Sum(16, 16);
    Pow2Sum(32, 32);
  }

  lemma {:induction false} Pow2Sum(j: nat, k: nat)
    ensures Pow2(j + k) == Pow2(j) * Pow2(k)
  {
    if j != 0 {
      Pow2Sum(j - 1, k);
    }
  }

  lemma {:induction false} Pow2Monotone(j: nat, k: nat)
    requires j <= k
    ensures Pow2(j) <= Pow2(k)
    decreases k
  {
    if j < k {
      Pow2Monotone(j, k - 1);
    }
  }

  /** Fewer than `cap` apart and not equal: different slots. */
  lemma SlotsDistinct(i: nat, j: nat, cap: nat)
    requires i < j < i + cap
    ensures i % cap != j % cap
  {
    MulGap(cap, i / cap, j / cap);
    MulGap(cap, j / cap, i / cap);
    assert i == cap * (i / cap) + i % cap;
    assert j == cap * (j / cap) + j % cap;
  }
}
