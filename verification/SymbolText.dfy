/** Symbols as text: which of them print as one word, and which that word tells apart. */
module SymbolText {
  import opened Words
  import opened Wire
  import opened Decode
  import opened Desk
  import opened DumpText

  predicate IsPrintable(b: Byte) {
    33 <= b <= 126
  }

  /** The symbol prints as one word of plain characters. */
  predicate Printable(key: Word) {
    var text := Text(key);
    text != "" && forall i | 0 <= i < |text| :: '!' <= text[i] <= '~'
  }

  /** The printed text tells these symbols apart. */
  ghost predicate TellsApart(keys: set<Word>) {
    && (forall k | k in keys :: Printable(k))
    && forall k, l | k in keys && l in keys && Text(k) == Text(l) :: k == l
  }

  /** As the wire format has them: plain characters, then spaces up to eight bytes. */
  predicate Padded(key: Word) {
    var s := ToBytes(key, SYMBOL_BYTES);
    var n := |Trim(s)|;
    && 0 < n <= SYMBOL_BYTES
    && (forall i | 0 <= i < n :: IsPrintable(s[i]))
    && forall i | n <= i < SYMBOL_BYTES :: s[i] == 32
  }

  lemma {:induction false} CStringAt(s: seq<Byte>)
    ensures var n := |CString(s)|;
            && n <= |s| && CString(s) == s[..n] && (forall i | 0 <= i < n :: s[i] != 0) && (n < |s| ==> s[n] == 0)
  {
    if s != [] && s[0] != 0 {
      CStringAt(s[1..]);
      assert s == [s[0]] + s[1..];
    }
  }

  lemma {:induction false} TrimAt(s: seq<Byte>)
    ensures var n := |Trim(s)|;
            && n <= |s| && Trim(s) == s[..n] && (forall i | n <= i < |s| :: s[i] == 0 || s[i] == 32)
            && (n > 0 ==> s[n - 1] != 0 && s[n - 1] != 32)
  {
    if s != [] && (s[|s| - 1] == 32 || s[|s| - 1] == 0) {
      TrimAt(s[..|s| - 1]);
    }
  }

  /**
    * The printed symbol, character by character: the stored bytes up to the first zero, or up to the blanks and zeros
    * at the end.
    */
  lemma {:induction false} TextAt(key: Word)
    ensures var s, text := ToBytes(key, SYMBOL_BYTES), Text(key);
            var n := |text|;
            && n <= SYMBOL_BYTES && (forall i | 0 <= i < n :: text[i] == s[i] as char && s[i] != 0)
            && ((n < SYMBOL_BYTES && s[n] == 0) || forall i | n <= i < SYMBOL_BYTES :: s[i] == 32 || s[i] == 0)
            && ((forall i | n <= i < SYMBOL_BYTES :: s[i] == 32 || s[i] == 0) ==> n == 0 || s[n - 1] != 32)
  {
    TrimAt(ToBytes(key, SYMBOL_BYTES));
    CStringAt(Trim(ToBytes(key, SYMBOL_BYTES)));
  }

  lemma PrintableIsWord(key: Word)
    requires Printable(key)
    ensures IsWord(Text(key))
  {
  }

  lemma {:induction false} TrimIsPrefix(s: seq<Byte>)
    ensures Trim(s) <= s
  {
    if s != [] && (s[|s| - 1] == 32 || s[|s| - 1] == 0) {
      TrimIsPrefix(s[..|s| - 1]);
    }
  }

  lemma {:induction false} NoZeroInside(s: seq<Byte>)
    requires forall i | 0 <= i < |s| :: s[i] != 0
    ensures CString(s) == s
  {
    if s != [] {
      NoZeroInside(s[1..]);
      assert s == [s[0]] + s[1..];
    }
  }

  lemma {:induction false} PaddedText(key: Word)
    requires Padded(key)
    ensures Text(key) == Chars(Trim(ToBytes(key, SYMBOL_BYTES))) && Printable(key)
  {
    var s := ToBytes(key, SYMBOL_BYTES);
    TrimIsPrefix(s);
    forall i | 0 <= i < |Trim(s)| ensures IsPrintable(Trim(s)[i]) {
      assert Trim(s)[i] == s[i];
    }
    NoZeroInside(Trim(s));
    forall i | 0 <= i < |Text(key)| ensures '!' <= Text(key)[i] <= '~' {
      assert Text(key)[i] == Trim(s)[i] as char;
    }
  }

  lemma {:induction false} SameChars(a: seq<Byte>, b: seq<Byte>)
    requires Chars(a) == Chars(b)
    ensures a == b
  {
    assert |a| == |Chars(a)| == |b|;
    forall i | 0 <= i < |a| ensures a[i] == b[i] {
      assert Chars(a)[i] == a[i] as char && Chars(b)[i] == b[i] as char;
    }
  }

  lemma {:induction false} PaddedSame(k: Word, l: Word)
    requires Padded(k) && Padded(l) && Text(k) == Text(l)
    ensures k == l
  {
    var a, b := ToBytes(k, SYMBOL_BYTES), ToBytes(l, SYMBOL_BYTES);
    PaddedText(k);
    PaddedText(l);
    SameChars(Trim(a), Trim(b));
    TrimIsPrefix(a);
    TrimIsPrefix(b);
    forall i | 0 <= i < SYMBOL_BYTES ensures a[i] == b[i] {
      if i < |Trim(a)| {
        assert a[i] == Trim(a)[i] == Trim(b)[i] == b[i];
      }
    }
    assert a == b;
    EightBytes();
    EncodeDecode(k, SYMBOL_BYTES);
    EncodeDecode(l, SYMBOL_BYTES);
  }

  /** Space-padded symbols of plain characters are told apart by their printed text. */
  lemma {:induction false} PaddedTellApart(keys: set<Word>)
    requires forall k | k in keys :: Padded(k)
    ensures TellsApart(keys)
  {
    forall k | k in keys ensures Printable(k) {
      PaddedText(k);
    }
    forall k, l | k in keys && l in keys && Text(k) == Text(l) ensures k == l {
      PaddedSame(k, l);
    }
  }

  /** Every plain text of up to eight characters is the name of a space-padded symbol. */
  lemma {:induction false} PaddedNamed(text: string) returns (key: Word)
    requires 0 < |text| <= SYMBOL_BYTES && forall i | 0 <= i < |text| :: '!' <= text[i] <= '~'
    ensures Padded(key) && Text(key) == text
  {
    var s := Filled(text);
    DecodeEncode(s);
    EightBytes();
    key := LittleEndian(s);
    TrimFilled(text);
    PaddedText(key);
    assert Chars(s[..|text|]) == text;
  }

  /** The text's bytes, then spaces. */
  function Filled(text: string): (s: seq<Byte>)
    requires |text| <= SYMBOL_BYTES
    ensures |s| == SYMBOL_BYTES
  {
    seq(SYMBOL_BYTES, i requires 0 <= i => if i < |text| then (text[i] as int) % 256 else 32)
  }

  lemma {:induction false} TrimFilled(text: string)
    requires 0 < |text| <= SYMBOL_BYTES && forall i | 0 <= i < |text| :: '!' <= text[i] <= '~'
    ensures Trim(Filled(text)) == Filled(text)[..|text|]
    ensures forall i | 0 <= i < |text| :: Filled(text)[i] == text[i] as int
  {
    var s := Filled(text);
    var n := |Trim(s)|;
    TrimAt(s);
    assert s[|text| - 1] == text[|text| - 1] as int;
    assert n >= |text|;
    assert forall i | |text| <= i < |s| :: s[i] == 32;
  }

  /** A symbol with text is not the key 0 that marks an empty slot. */
  lemma {:induction false} TextIsNotZero(key: Word)
    requires Text(key) != ""
    ensures key != 0
  {
    if key == 0 {
      ZeroBytes(SYMBOL_BYTES);
      TrimZeroes(ToBytes(0, SYMBOL_BYTES));
    }
  }

  lemma {:induction false} ZeroBytes(n: nat)
    ensures forall i | 0 <= i < n :: ToBytes(0, n)[i] == 0
  {
    if n != 0 {
      ZeroBytes(n - 1);
    }
  }

  lemma {:induction false} TrimZeroes(s: seq<Byte>)
    requires forall i | 0 <= i < |s| :: s[i] == 0
    ensures Trim(s) == []
  {
    if s != [] {
      TrimZeroes(s[..|s| - 1]);
    }
  }

  lemma TellsApartSubset(a: set<Word>, b: set<Word>)
    requires a <= b && TellsApart(b)
    ensures TellsApart(a)
  {
  }
}
