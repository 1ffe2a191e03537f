/** Fixed-point prices as text: the two formatters and the parser between them. */
module PriceText {
  import opened Levels
  import opened Words
  import opened Wrappers

  predicate IsDigit(c: char) {
    '0' <= c <= '9'
  }

  predicate AllDigits(s: string) {
    forall i | 0 <= i < |s| :: IsDigit(s[i])
  }

  function Digit(d: nat): char
    requires d < 10
  {
    ('0' as int + d) as char
  }

  function Decimal(n: nat): (s: string)
    ensures s != [] && forall c | c in s :: IsDigit(c)
  {
    if n < 10 then [Digit(n)] else Decimal(n / 10) + [Digit(n % 10)]
  }

  /** `%04d` of a number below 10000. */
  function FourDigits(n: nat): (s: string)
    requires n < 10000
    ensures |s| == 4 && forall c | c in s :: IsDigit(c)
  {
    [Digit(n / 1000), Digit(n / 100 % 10), Digit(n / 10 % 10), Digit(n % 10)]
  }

  function Abs(v: int): nat {
    if v < 0 then -v else v
  }

  /** Four places after the point. */
  function FixedText(a: nat): string {
    Decimal(a / 10000) + "." + FourDigits(a % 10000)
  }

  /** The reference script's fmt_px. */
  function FmtPx(v: int): string {
    if v < 0 then "-" + FixedText(Abs(v)) else FixedText(Abs(v))
  }

  /**
    * The C formatter: the magnitude is taken on int64_t and then read as uint64_t. At -2^63 C leaves the negation
    * undefined; here it gives 2^63.
    */
  function FmtPxC(px: Price): string {
    var neg, v: int := px < 0, px;
    var a: nat := (if neg then -v else v) % WORD;
    if neg then "-" + FixedText(a) else FixedText(a)
  }

  /** `int(s)` on plain digits; anything else is refused. */
  function ToInt(s: string): Option<nat> {
    if s != [] && AllDigits(s) then Some(Value(s)) else None
  }

  function Value(s: string): nat
    requires AllDigits(s)
  {
    if s == [] then 0 else
      assert IsDigit(s[|s| - 1]);
      10 * Value(s[..|s| - 1]) + (s[|s| - 1] as int - '0' as int)
  }

  /** What comes before the first separator and what comes after it. */
  function Partition(sep: char, s: string): (parts: (string, string)) {
    if s == [] then ([], []) else if s[0] == sep then ([], s[1..]) else
      var rest := Partition(sep, s[1..]);
      ([s[0]] + rest.0, rest.1)
  }

  /** The reference script's parse_px. */
  function ParsePx(s: string): Option<int> {
    var neg := s != [] && s[0] == '-';
    var parts := Partition('.', if neg then s[1..] else s);
    match (ToInt(parts.0), ToInt((parts.1 + "0000")[..4]))
    case (Some(whole), Some(frac)) => Some(if neg then -(whole * 10000 + frac) else whole * 10000 + frac)
    case _ => None
  }

  lemma {:induction false} ValueDecimal(n: nat)
    ensures ToInt(Decimal(n)) == Some(n)
  {
    DecimalDigits(n);
    if n >= 10 {
      ValueDecimal(n / 10);
      DecimalDigits(n / 10);
      ValueLast(Decimal(n / 10), n % 10);
    } else {
      ValueLast([], n);
      assert [] + [Digit(n)] == Decimal(n);
    }
  }

  lemma DecimalDigits(n: nat)
    ensures AllDigits(Decimal(n))
  {
    forall i | 0 <= i < |Decimal(n)| ensures IsDigit(Decimal(n)[i]) {
      assert Decimal(n)[i] in Decimal(n);
    }
  }

  lemma ValueLast(s: string, d: nat)
    requires d < 10 && AllDigits(s)
    ensures AllDigits(s + [Digit(d)])
    ensures Value(s + [Digit(d)]) == 10 * Value(s) + d
  {
    assert (s + [Digit(d)])[..|s|] == s;
  }

  function Pow10(k: nat): (p: nat)
    ensures 0 < p
  {
    if k == 0 then 1 else 10 * Pow10(k - 1)
  }

  lemma DivideTwice(n: nat, d: nat)
    requires 0 < d
    ensures n / 10 / d == n / (10 * d)
  {
    var q, r := n / 10 / d, n / 10 % d;
    assert n == 10 * (d * q + r) + n % 10;
    assert 10 * (d * q) == (10 * d) * q;
    RemainderUnique(10 * d, q, 10 * r + n % 10, n);
  }

  /** The k-th digit from the right is that of 10^k. */
  lemma {:induction false} DecimalAt(n: nat, k: nat)
    requires k < |Decimal(n)|
    ensures Decimal(n)[|Decimal(n)| - 1 - k] == Digit(n / Pow10(k) % 10)
  {
    if k != 0 {
      DecimalAt(n / 10, k - 1);
      DivideTwice(n, Pow10(k - 1));
    }
  }

  /** No zero in front of another digit. */
  lemma {:induction false} NoLeadingZero(n: nat)
    ensures if n == 0 then Decimal(n) == "0" else Decimal(n)[0] != '0'
  {
    if n >= 10 {
      NoLeadingZero(n / 10);
    }
  }

  lemma FourPlaces(n: nat)
    requires n < 10000
    ensures n == 10 * (10 * (10 * (n / 1000) + n / 100 % 10) + n / 10 % 10) + n % 10
  {
    assert n / 100 == n / 10 / 10 && n / 1000 == n / 100 / 10;
  }

  lemma ValueFour(n: nat)
    requires n < 10000
    ensures ToInt(FourDigits(n)) == Some(n)
  {
    FourPlaces(n);
    ValueOfFour(n / 1000, n / 100 % 10, n / 10 % 10, n % 10);
  }

  lemma ValueOfFour(a: nat, b: nat, c: nat, d: nat)
    requires a < 10 && b < 10 && c < 10 && d < 10
    ensures ToInt([Digit(a), Digit(b), Digit(c), Digit(d)]) == Some(10 * (10 * (10 * a + b) + c) + d)
  {
    ValueLast([], a);
    ValueLast([] + [Digit(a)], b);
    ValueLast([] + [Digit(a)] + [Digit(b)], c);
    ValueLast([] + [Digit(a)] + [Digit(b)] + [Digit(c)], d);
    assert [Digit(a), Digit(b), Digit(c), Digit(d)] == [] + [Digit(a)] + [Digit(b)] + [Digit(c)] + [Digit(d)];
  }

  lemma {:induction false} PartitionAt(sep: char, a: string, b: string)
    requires forall i | 0 <= i < |a| :: a[i] != sep
    ensures Partition(sep, a + [sep] + b) == (a, b)
    decreases |a|
  {
    var s := a + [sep] + b;
    if a == [] {
      assert s[1..] == b;
    } else {
      assert s[1..] == a[1..] + [sep] + b;
      PartitionAt(sep, a[1..], b);
      assert a == [a[0]] + a[1..];
    }
  }

  lemma {:induction false} ParseFixed(a: nat)
    ensures var parts := Partition('.', FixedText(a));
            ToInt(parts.0) == Some(a / 10000) && ToInt((parts.1 + "0000")[..4]) == Some(a % 10000)
    ensures FixedText(a) != [] && FixedText(a)[0] != '-'
  {
    var whole, frac := Decimal(a / 10000), FourDigits(a % 10000);
    DecimalDigits(a / 10000);
    ValueDecimal(a / 10000);
    ValueFour(a % 10000);
    PartitionAt('.', whole, frac);
    assert (frac + "0000")[..4] == frac;
    assert FixedText(a)[0] == whole[0];
  }

  /** For every integer, negative ones above -1.0000 included. */
  lemma {:induction false} ParseFmt(v: int)
    ensures ParsePx(FmtPx(v)) == Some(v)
  {
    ParseFixed(Abs(v));
    assert v < 0 ==> FmtPx(v)[1..] == FixedText(Abs(v));
  }

  /** The text digit by digit: four of them after the point, the last one that of 1, and no needless zero before it. */
  lemma {:induction false} FixedDigits(a: nat, k: nat)
    requires k < 4
    ensures var s := FixedText(a);
            && |s| >= 6 && s[|s| - 5] == '.' && s[..|s| - 5] == Decimal(a / 10000)
            && s[|s| - 1 - k] == Digit(a / Pow10(k) % 10)
  {
    var s := FixedText(a);
    assert Pow10(1) == 10 && Pow10(2) == 100 && Pow10(3) == 1000;
    assert s == Decimal(a / 10000) + ("." + FourDigits(a % 10000));
    PlaceInFour(a, k);
  }

  lemma PlaceInFour(a: nat, k: nat)
    requires k < 4
    ensures FourDigits(a % 10000)[3 - k] == Digit(a / Pow10(k) % 10)
  {
    assert Pow10(1) == 10 && Pow10(2) == 100 && Pow10(3) == 1000;
    match k
    case 0 => SamePlace(a, 1, 1000);
    case 1 => SamePlace(a, 10, 100);
    case 2 => SamePlace(a, 100, 10);
    case 3 => SamePlace(a, 1000, 1);
  }

  /** What a division by 10000 leaves keeps the last four digits. */
  lemma SamePlace(a: nat, d: nat, e: nat)
    requires 0 < d && d * (10 * e) == 10000
    ensures a / d % 10 == a % 10000 / d % 10
  {
    var q, r := a / 10000, a % 10000;
    assert d * ((10 * e) * q) == (d * (10 * e)) * q;
    assert d * ((10 * e) * q + r / d) == 10000 * q + d * (r / d);
    RemainderUnique(d, (10 * e) * q + r / d, r % d, a);
    assert (10 * e) * q == 10 * (e * q);
    RemainderUnique(10, e * q + r / d / 10, r / d % 10, a / d);
  }

  function Zeros(k: nat): string {
    if k == 0 then "" else Zeros(k - 1) + ['0']
  }

  function Tenfold(n: nat, k: nat): nat {
    if k == 0 then n else 10 * Tenfold(n, k - 1)
  }

  lemma {:induction false} ValueZeros(s: string, k: nat)
    requires AllDigits(s)
    ensures AllDigits(s + Zeros(k)) && Value(s + Zeros(k)) == Tenfold(Value(s), k)
  {
    if k == 0 {
      assert s + Zeros(0) == s;
    } else {
      ValueZeros(s, k - 1);
      assert s + Zeros(k) == s + Zeros(k - 1) + [Digit(0)];
      ValueLast(s + Zeros(k - 1), 0);
    }
  }

  /** Four decimals count: missing ones are zeros, and those after the fourth are left off. */
  function Places(d: string): nat
    requires AllDigits(d)
  {
    if |d| >= 4 then Value(d[..4]) else Tenfold(Value(d), 4 - |d|)
  }

  lemma FourOf(d: string)
    requires AllDigits(d)
    ensures ToInt((d + "0000")[..4]) == Some(Places(d))
  {
    if |d| >= 4 {
      assert (d + "0000")[..4] == d[..4];
    } else {
      ValueZeros(d, 4 - |d|);
      FourZeros(4 - |d|);
      assert (d + "0000")[..4] == d + "0000"[..4 - |d|];
    }
  }

  lemma FourZeros(k: nat)
    requires k <= 4
    ensures Zeros(k) == "0000"[..k]
  {
    assert Zeros(1) == "0" && Zeros(2) == "00" && Zeros(3) == "000";
  }

  lemma {:induction false} NoSeparator(sep: char, s: string)
    requires sep !in s
    ensures Partition(sep, s) == (s, [])
  {
    if s != [] {
      NoSeparator(sep, s[1..]);
      assert s == [s[0]] + s[1..];
    }
  }

  /** What the script makes of the text after the sign. */
  lemma ParsePlain(s: string, w: string, d: string)
    requires w != [] && AllDigits(w) && AllDigits(d)
    requires s == w + ['.'] + d || (s == w && d == [])
    ensures s[0] != '-'
    ensures var parts := Partition('.', s);
            ToInt(parts.0) == Some(Value(w)) && ToInt((parts.1 + "0000")[..4]) == Some(Places(d))
  {
    assert s[0] == w[0];
    if s == w {
      NoSeparator('.', w);
    } else {
      PartitionAt('.', w, d);
    }
    FourOf(d);
  }

  /** The script reads digits with or without a point and more digits; a minus sign turns the value round. */
  lemma {:induction false} ParseDigits(s: string, w: string, d: string)
    requires w != [] && AllDigits(w) && AllDigits(d)
    requires s == w + ['.'] + d || (s == w && d == [])
    ensures ParsePx(s) == Some(10000 * Value(w) + Places(d))
    ensures ParsePx(['-'] + s) == Some(-(10000 * Value(w) + Places(d)))
  {
    ParsePlain(s, w, d);
    assert (['-'] + s)[1..] == s;
  }

  /** As the script's own comment has it, and a price below 0. */
  lemma PriceExamples()
    ensures FmtPx(123400) == "12.3400" && FmtPx(-1) == "-0.0001"
  {
    assert Decimal(12) == "12" && Decimal(0) == "0";
  }

  /** Both programs print every price the same way. */
  lemma SameText(px: Price)
    ensures FmtPxC(px) == FmtPx(px)
  {
    NoWrap(Abs(px));
  }

  lemma NoWrap(n: nat)
    requires n < WORD
    ensures n % WORD == n
  {
  }

  /** Equal text means an equal price, and no price prints as the `-` of an empty side. */
  lemma TextIsPrice(a: int, b: int)
    ensures FmtPx(a) == FmtPx(b) ==> a == b
    ensures FmtPx(a) != "-"
  {
    ParseFmt(a);
    ParseFmt(b);
    assert |FmtPx(a)| >= 5;
  }
}
