/** The text dump between the two programs: columns of words, printed with padding and split at blanks. */
module DumpText {
  import opened PriceText
  import opened Sequences
  import opened Wrappers

  /** What `str.split` takes for blank, among the characters a byte can be. */
  predicate IsBlank(c: char) {
    var b := c as int;
    9 <= b <= 13 || 28 <= b <= 32 || b == 133 || b == 160
  }

  lemma BlankChars()
    ensures forall c | c in " \t\n\r" :: IsBlank(c)
    ensures forall c | '!' <= c <= '~' :: !IsBlank(c)
  {
  }

  predicate IsWord(s: string) {
    s != [] && forall i | 0 <= i < |s| :: !IsBlank(s[i])
  }

  /** How many leading characters are not blank. */
  function WordLength(s: string): (n: nat)
    ensures n <= |s|
  {
    if s == [] || IsBlank(s[0]) then 0 else 1 + WordLength(s[1..])
  }

  /** `line.split()`. */
  function Split(s: string): seq<string>
    decreases |s|
  {
    if s == [] then [] else if IsBlank(s[0]) then Split(s[1..]) else
      [s[..WordLength(s)]] + Split(s[WordLength(s)..])
  }

  function Spaces(n: nat): (s: string)
    ensures |s| == n && forall i | 0 <= i < n :: s[i] == ' '
  {
    seq(n, _ => ' ')
  }

  /** One printf conversion: blanks before it, its width, and on which side it is padded. */
  datatype Column = Column(before: nat, width: nat, left: bool, text: string) {
    function Pad(): nat {
      if |text| < width then width - |text| else 0
    }

    function Lead(): nat {
      before + if left then 0 else Pad()
    }

    function Trail(): nat {
      if left then Pad() else 0
    }

    function Printed(): string {
      Spaces(Lead()) + text + Spaces(Trail())
    }
  }

  function Format(cols: seq<Column>): string {
    if cols == [] then "\n" else
      cols[0].Printed() + Format(cols[1..])
  }

  /** A column takes its width, or what its text needs, after the blanks before it; the rest is blank on one side. */
  lemma ColumnPrinted(c: Column)
    ensures var s, room := c.Printed(), if |c.text| < c.width then c.width else |c.text|;
            var at := if c.left then c.before else c.before + room - |c.text|;
            && |s| == c.before + room && s[at..at + |c.text|] == c.text
            && forall i | 0 <= i < |s| && !(at <= i < at + |c.text|) :: s[i] == ' '
  {
  }

  lemma {:induction false} FormatAppend(a: seq<Column>, b: seq<Column>)
    ensures Format(a) != [] && Format(a + b) == Format(a)[..|Format(a)| - 1] + Format(b)
    decreases |a|
  {
    if a == [] {
      assert a + b == b;
    } else {
      assert (a + b)[1..] == a[1..] + b;
      FormatAppend(a[1..], b);
    }
  }

  function Texts(cols: seq<Column>): seq<string> {
    seq(|cols|, i requires 0 <= i < |cols| => cols[i].text)
  }

  lemma {:induction false} SplitBlanks(n: nat, rest: string)
    ensures Split(Spaces(n) + rest) == Split(rest)
  {
    if n == 0 {
      assert Spaces(0) + rest == rest;
    } else {
      assert (Spaces(n) + rest)[1..] == Spaces(n - 1) + rest;
      SplitBlanks(n - 1, rest);
    }
  }

  lemma {:induction false} WordAhead(w: string, rest: string)
    requires (forall i | 0 <= i < |w| :: !IsBlank(w[i])) && (rest == [] || IsBlank(rest[0]))
    ensures WordLength(w + rest) == |w|
    decreases |w|
  {
    if w == [] {
      assert w + rest == rest;
    } else {
      assert (w + rest)[1..] == w[1..] + rest;
      WordAhead(w[1..], rest);
    }
  }

  lemma {:induction false} SplitWord(w: string, rest: string)
    requires IsWord(w) && (rest == [] || IsBlank(rest[0]))
    ensures Split(w + rest) == [w] + Split(rest)
  {
    WordAhead(w, rest);
    assert (w + rest)[..|w|] == w && (w + rest)[|w|..] == rest;
  }

  lemma {:induction false} SplitPadded(lead: nat, w: string, trail: nat, rest: string)
    requires IsWord(w) && rest != [] && IsBlank(rest[0])
    ensures Split(Spaces(lead) + w + Spaces(trail) + rest) == [w] + Split(rest)
  {
    var tail := Spaces(trail) + rest;
    assert Spaces(lead) + w + Spaces(trail) + rest == Spaces(lead) + (w + tail);
    SplitBlanks(lead, w + tail);
    assert tail[0] == if trail == 0 then rest[0] else ' ';
    SplitWord(w, tail);
    SplitBlanks(trail, rest);
  }

  /** One word each, with blanks between them. */
  ghost predicate AreWords(cols: seq<Column>) {
    forall i | 0 <= i < |cols| :: IsWord(cols[i].text) && (0 < i ==> 0 < cols[i].before)
  }

  lemma WordsAppend(a: seq<Column>, b: seq<Column>)
    requires AreWords(a) && AreWords(b) && (b != [] ==> 0 < b[0].before)
    ensures AreWords(a + b)
  {
  }

  /** Splitting a printed row gives back its columns, whatever the widths. */
  lemma {:induction false} SplitFormat(cols: seq<Column>)
    requires AreWords(cols)
    ensures Split(Format(cols)) == Texts(cols)
    decreases |cols|
  {
    if cols == [] {
      assert "\n"[1..] == "";
    } else {
      var c, rest := cols[0], cols[1..];
      SplitFormat(rest);
      BlankAhead(rest);
      SplitPadded(c.Lead(), c.text, c.Trail(), Format(rest));
      assert Texts(cols) == [c.text] + Texts(rest);
    }
  }

  /** The same for the first columns alone: what follows them may be anything. */
  lemma {:induction false} SplitFront(cols: seq<Column>, n: nat)
    requires n <= |cols| && forall i | 0 < i < |cols| :: 0 < cols[i].before
    requires forall i | 0 <= i < n :: IsWord(cols[i].text)
    ensures Texts(cols[..n]) <= Split(Format(cols))
    decreases n
  {
    if n != 0 {
      var c, rest := cols[0], cols[1..];
      SplitFront(rest, n - 1);
      BlankAhead(rest);
      SplitPadded(c.Lead(), c.text, c.Trail(), Format(rest));
      assert Texts(cols[..n]) == [c.text] + Texts(rest[..n - 1]);
    }
  }

  lemma BlankAhead(cols: seq<Column>)
    requires cols != [] ==> 0 < cols[0].before
    ensures Format(cols) != [] && IsBlank(Format(cols)[0])
  {
    if cols != [] {
      assert Format(cols)[0] == Spaces(cols[0].Lead())[0];
    }
  }

  // Lines of a file.

  predicate NoBreak(s: string) {
    '\n' !in s && '\r' !in s
  }

  /** Characters other than line ends, and a line end. */
  predicate IsLine(s: string) {
    s != [] && s[|s| - 1] == '\n' && NoBreak(s[..|s| - 1])
  }

  ghost predicate Breakless(cols: seq<Column>) {
    forall i | 0 <= i < |cols| :: NoBreak(cols[i].text)
  }

  lemma WordNoBreak(w: string)
    requires IsWord(w)
    ensures NoBreak(w)
  {
  }

  lemma NoBreakAppend(a: string, b: string)
    requires NoBreak(a) && NoBreak(b)
    ensures NoBreak(a + b)
  {
    NotInEither('\n', a, b);
    NotInEither('\r', a, b);
  }

  /** A row of columns without line ends is one line. */
  lemma {:induction false} FormatOneLine(cols: seq<Column>)
    requires Breakless(cols)
    ensures IsLine(Format(cols))
    decreases |cols|
  {
    if cols != [] {
      var c, rest := cols[0], Format(cols[1..]);
      FormatOneLine(cols[1..]);
      NoBreakAppend(Spaces(c.Lead()), c.text);
      NoBreakAppend(Spaces(c.Lead()) + c.text, Spaces(c.Trail()));
      NoBreakAppend(c.Printed(), rest[..|rest| - 1]);
      assert Format(cols)[..|Format(cols)| - 1] == c.Printed() + rest[..|rest| - 1];
    }
  }

  function FileOf(lines: seq<string>): string {
    if lines == [] then "" else lines[0] + FileOf(lines[1..])
  }

  /** How far the first line goes. */
  function LineEnd(s: string): (n: nat)
    requires s != []
    ensures 0 < n <= |s|
  {
    if s[0] == '\n' || |s| == 1 then 1 else 1 + LineEnd(s[1..])
  }

  /** `for line in f`. */
  function LinesOf(s: string): seq<string>
    decreases |s|
  {
    if s == [] then [] else [s[..LineEnd(s)]] + LinesOf(s[LineEnd(s)..])
  }

  lemma {:induction false} LineEnds(line: string, rest: string)
    requires IsLine(line)
    ensures LineEnd(line + rest) == |line|
    decreases |line|
  {
    if |line| > 1 {
      assert line[0] == line[..|line| - 1][0];
      assert (line + rest)[1..] == line[1..] + rest;
      assert line[1..][..|line| - 2] == line[..|line| - 1][1..];
      LineEnds(line[1..], rest);
    }
  }

  lemma {:induction false} LinesOfFile(lines: seq<string>)
    requires forall i | 0 <= i < |lines| :: IsLine(lines[i])
    ensures LinesOf(FileOf(lines)) == lines
    decreases |lines|
  {
    if lines != [] {
      var rest := FileOf(lines[1..]);
      LineEnds(lines[0], rest);
      LinesOfFile(lines[1..]);
      assert (lines[0] + rest)[..|lines[0]|] == lines[0] && (lines[0] + rest)[|lines[0]|..] == rest;
      assert lines == [lines[0]] + lines[1..];
    }
  }

  // Numbers in the columns.

  /** `%d`. */
  function IntText(v: int): string {
    if v < 0 then "-" + Decimal(-v) else Decimal(v)
  }

  /** The text of a number reads back as the number, sign included. */
  lemma IntReads(v: int)
    ensures v >= 0 ==> ToInt(IntText(v)) == Some(v) && IntText(v)[0] != '-'
    ensures v < 0 ==> IntText(v)[0] == '-' && ToInt(IntText(v)[1..]) == Some(-v)
  {
    ValueDecimal(if v < 0 then -v else v);
    DecimalDigits(if v < 0 then -v else v);
  }

  /** It has no needless zero, and its digits are those of the number. */
  lemma {:induction false} IntDigits(v: int, k: nat)
    requires k < |IntText(v)| - if v < 0 then 1 else 0
    ensures var n := if v < 0 then -v else v;
            && IntText(v)[|IntText(v)| - 1 - k] == Digit(n / Pow10(k) % 10)
            && (v != 0 ==> IntText(v)[if v < 0 then 1 else 0] != '0')
  {
    var n := if v < 0 then -v else v;
    DecimalAt(n, k);
    NoLeadingZero(n);
  }

  lemma IntTellsApart(v: int, w: int)
    requires IntText(v) == IntText(w)
    ensures v == w
  {
    IntReads(v);
    IntReads(w);
  }

  function HexDigit(d: nat): char
    requires d < 16
  {
    if d < 10 then Digit(d) else ('a' as int + (d - 10)) as char
  }

  /** `0x%02x` of a byte. */
  function HexByte(b: nat): string
    requires b < 256
  {
    ['0', 'x', HexDigit(b / 16), HexDigit(b % 16)]
  }

  function HexValue(c: char): Option<nat> {
    if '0' <= c <= '9' then Some(c as int - '0' as int)
    else if 'a' <= c <= 'f' then Some(c as int - 'a' as int + 10)
    else None
  }

  /** `int(s, 16)` on the two digits the dump prints. */
  function ToHex(s: string): Option<nat> {
    if |s| == 4 && s[0] == '0' && s[1] == 'x' then
      match (HexValue(s[2]), HexValue(s[3]))
      case (Some(a), Some(b)) => Some(16 * a + b)
      case _ => None
    else None
  }

  lemma HexReads(b: nat)
    requires b < 256
    ensures ToHex(HexByte(b)) == Some(b)
  {
    HexDigitReads(b / 16);
    HexDigitReads(b % 16);
  }

  lemma HexDigitReads(d: nat)
    requires d < 16
    ensures HexValue(HexDigit(d)) == Some(d)
  {
  }

  lemma DigitsAreWords(n: nat)
    ensures IsWord(Decimal(n))
  {
    DecimalDigits(n);
  }

  lemma IntIsWord(v: int)
    ensures IsWord(IntText(v))
  {
    DigitsAreWords(if v < 0 then -v else v);
  }

  lemma PriceIsWord(v: int)
    ensures IsWord(FmtPx(v))
  {
    var s := FmtPx(v);
    DecimalDigits(Abs(v) / 10000);
    forall i | 0 <= i < |s| ensures !IsBlank(s[i]) {
      FmtChars(v, i);
    }
  }

  lemma FmtChars(v: int, i: nat)
    requires i < |FmtPx(v)|
    ensures FmtPx(v)[i] == '-' || FmtPx(v)[i] == '.' || IsDigit(FmtPx(v)[i])
  {
    var whole, frac := Decimal(Abs(v) / 10000), FourDigits(Abs(v) % 10000);
    assert FmtPx(v)[i] in FmtPx(v);
    assert forall c | c in FmtPx(v) :: c == '-' || c == '.' || c in whole || c in frac;
  }

  lemma HexIsWord(b: nat)
    requires b < 256
    ensures IsWord(HexByte(b))
  {
  }
}
