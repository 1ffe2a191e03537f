/** From the 30 wire bytes of an update to what the book takes. */
module Decode {
  import opened Words
  import opened Wire
  import opened Levels
  import Book

  const SYMBOL_BYTES: nat := 8

  function KeyOf(plu: Plu): Word {
    DecodeEncode(plu[10..10 + SYMBOL_BYTES]);
    EightBytes();
    Field(plu, 10, SYMBOL_BYTES)
  }

  function SizeOf(plu: Plu): Size {
    DecodeEncode(plu[18..22]);
    FourBytes();
    Field(plu, 18, 4)
  }

  function PriceOf(plu: Plu): int {
    Signed(Field(plu, 22, 8), WORD)
  }

  function SideOf(plu: Plu): Side {
    if plu[0] == PLU_BUY then Bid else Ask
  }

  function TimestampOf(plu: Plu): int {
    Signed(Field(plu, 2, 8), WORD)
  }

  /** Event Processing Complete. */
  predicate Epc(plu: Plu) {
    plu[1] % 2 == 1
  }

  /** All prices but the one whose sign int64_t cannot flip: the book flips it for bids, the formatter for both. */
  predicate Sane(plu: Plu) {
    PriceOf(plu) > -TWO_63
  }

  lemma FourBytes()
    ensures Pow256(4) == 0x1_0000_0000
  {
  }

  lemma EightBytes()
    ensures Pow256(8) == WORD
  {
    assert Pow256(4) == 0x1_0000_0000;
    assert Pow256(6) == 0x1_0000 * Pow256(4);
  }

  lemma PriceFits(plu: Plu)
    ensures -TWO_63 <= PriceOf(plu) < TWO_63
  {
    DecodeEncode(plu[22..30]);
    EightBytes();
  }

  function BookPrice(plu: Plu): Price {
    PriceFits(plu);
    PriceOf(plu)
  }

  function UpdateOf(plu: Plu, sym: nat): Book.Update {
    Book.Update(sym, SideOf(plu), BookPrice(plu), SizeOf(plu))
  }

  // The wire form of an update, and that nothing of it is lost in decoding.

  datatype Fields = Fields(side: Side, epc: bool, ts: Int64, symbol: seq<Byte>, size: Size, price: Price)

  function Encode(f: Fields): Plu
    requires |f.symbol| == SYMBOL_BYTES
  {
    var head := [if f.side.Bid? then PLU_BUY else PLU_SELL, if f.epc then 1 else 0];
    head + ToBytes(Unsigned(f.ts), 8) + f.symbol + ToBytes(f.size, 4) + ToBytes(Unsigned(f.price), 8)
  }

  lemma Parts(a: seq<Byte>, b: seq<Byte>, c: seq<Byte>, d: seq<Byte>, e: seq<Byte>)
    requires |a| == 2 && |b| == 8 && |c| == 8 && |d| == 4 && |e| == 8
    ensures var s := a + b + c + d + e;
            s[0] == a[0] && s[1] == a[1] && s[2..10] == b && s[10..18] == c && s[18..22] == d && s[22..30] == e
  {
    var s := a + b + c + d + e;
    assert s == a + (b + (c + (d + e)));
  }

  /** Decoding recovers every field of every encoded update. */
  lemma {:induction false} DecodeEncoded(f: Fields)
    requires |f.symbol| == SYMBOL_BYTES
    ensures var plu := Encode(f);
            && SideOf(plu) == f.side && Epc(plu) == f.epc && SizeOf(plu) == f.size && PriceOf(plu) == f.price
            && TimestampOf(plu) == f.ts && ToBytes(KeyOf(plu), SYMBOL_BYTES) == f.symbol && IsPlu(plu)
            && (Sane(plu) <==> f.price > -TWO_63)
  {
    var plu := Encode(f);
    var head := [if f.side.Bid? then PLU_BUY else PLU_SELL, if f.epc then 1 else 0];
    FourBytes();
    EightBytes();
    Parts(head, ToBytes(Unsigned(f.ts), 8), f.symbol, ToBytes(f.size, 4), ToBytes(Unsigned(f.price), 8));
    DecodeEncode(f.symbol);
    EncodeDecode(f.size, 4);
    EncodeDecode(Unsigned(f.ts), 8);
    EncodeDecode(Unsigned(f.price), 8);
  }

  /** The symbol bytes are a faithful key. */
  lemma {:induction false} KeyIsSymbol(plu: Plu)
    ensures ToBytes(KeyOf(plu), SYMBOL_BYTES) == plu[10..18]
  {
    DecodeEncode(plu[10..18]);
  }

  /** The fields of an update by their offsets in the 30 bytes. */
  lemma {:induction false} PluLayout(plu: Plu)
    ensures SideOf(plu) == (if plu[0] as char == '8' then Bid else Ask) && (Epc(plu) <==> plu[1] % 2 == 1)
    ensures SizeOf(plu) ==
            plu[18] + 0x100 * (plu[19] as int) + 0x1_0000 * (plu[20] as int) + 0x100_0000 * (plu[21] as int)
    ensures KeyOf(plu) == Field(plu, 10, 4) + 0x1_0000_0000 * Field(plu, 14, 4)
    ensures TimestampOf(plu) == Field(plu, 2, 4) + 0x1_0000_0000 * Field(plu, 6, 4) - if plu[9] >= 128 then WORD else 0
    ensures PriceOf(plu) == Field(plu, 22, 4) + 0x1_0000_0000 * Field(plu, 26, 4) - if plu[29] >= 128 then WORD else 0
    ensures BookPrice(plu) == PriceOf(plu)
  {
    FieldFour(plu, 18);
    FieldEight(plu, 10);
    SignedEight(plu, 2);
    SignedEight(plu, 22);
  }
}
