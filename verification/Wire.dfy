/** The IEX-TP segment header, message blocks and the Price Level Update, as little-endian bytes. */
module Wire {
  import opened Words

  type Byte = b: nat | b < 256

  const HEADER_BYTES: nat := 40
  const PLU_BYTES: nat := 30
  const PROTO_DEEP: nat := 0x8004
  const PLU_BUY: nat := 0x38
  const PLU_SELL: nat := 0x35

  function LittleEndian(bs: seq<Byte>): nat {
    if bs == [] then 0 else bs[0] + 256 * LittleEndian(bs[1..])
  }

  function ToBytes(v: nat, n: nat): (bs: seq<Byte>)
    ensures |bs| == n
  {
    if n == 0 then [] else [v % 256] + ToBytes(v / 256, n - 1)
  }

  function Pow256(n: nat): nat {
    if n == 0 then 1 else 256 * Pow256(n - 1)
  }

  lemma {:induction false} EncodeDecode(v: nat, n: nat)
    requires v < Pow256(n)
    ensures LittleEndian(ToBytes(v, n)) == v
  {
    if n != 0 {
      EncodeDecode(v / 256, n - 1);
      assert ToBytes(v, n)[1..] == ToBytes(v / 256, n - 1);
    }
  }

  lemma {:induction false} DecodeEncode(bs: seq<Byte>)
    ensures LittleEndian(bs) < Pow256(|bs|)
    ensures ToBytes(LittleEndian(bs), |bs|) == bs
  {
    if bs != [] {
      DecodeEncode(bs[1..]);
      assert LittleEndian(bs) / 256 == LittleEndian(bs[1..]);
      assert bs == [bs[0]] + bs[1..];
    }
  }

  /** Two's complement. */
  function Signed(v: nat, bits: nat): int {
    if v < bits / 2 then v else v - bits
  }

  const TWO_63: int := 0x8000_0000_0000_0000

  type Int64 = v: int | -0x8000_0000_0000_0000 <= v < 0x8000_0000_0000_0000

  function Unsigned(v: Int64): nat {
    if v < 0 then v + WORD else v
  }

  function Field(buf: seq<Byte>, from: nat, width: nat): nat
    requires from + width <= |buf|
  {
    LittleEndian(buf[from..from + width])
  }

  predicate HasHeader(buf: seq<Byte>) {
    |buf| >= HEADER_BYTES
  }

  function ProtocolId(buf: seq<Byte>): nat
    requires HasHeader(buf)
  {
    Field(buf, 2, 2)
  }

  function PayloadLen(buf: seq<Byte>): nat
    requires HasHeader(buf)
  {
    Field(buf, 12, 2)
  }

  function MessageCount(buf: seq<Byte>): nat
    requires HasHeader(buf)
  {
    Field(buf, 14, 2)
  }

  function FirstSeq(buf: seq<Byte>): int
    requires HasHeader(buf)
  {
    Signed(Field(buf, 24, 8), WORD)
  }

  /** A segment this pipeline reads: a whole header that says DEEP. */
  predicate IsDeep(buf: seq<Byte>) {
    HasHeader(buf) && ProtocolId(buf) == PROTO_DEEP
  }

  /** Where the message blocks end: where the header says, or where the received bytes do. */
  function End(buf: seq<Byte>): (end: nat)
    requires HasHeader(buf)
    ensures HEADER_BYTES <= end <= |buf|
  {
    if HEADER_BYTES + PayloadLen(buf) > |buf| then |buf| else HEADER_BYTES + PayloadLen(buf)
  }

  /** The whole message blocks from a position on, and whether the walk stopped in a cut one. */
  datatype Walk = Walk(bodies: seq<seq<Byte>>, truncated: bool)

  function Blocks(buf: seq<Byte>, pos: nat, end: nat, count: nat): Walk
    requires end <= |buf|
    decreases count
  {
    if count == 0 || pos + 2 > end then Walk([], false) else
      var next := pos + 2 + Field(buf, pos, 2);
      if next > end then Walk([], true) else
        var rest := Blocks(buf, next, end, count - 1);
        Walk([buf[pos + 2..next]] + rest.bodies, rest.truncated)
  }

  /** The 30 bytes of a Price Level Update, as they came. */
  type Plu = s: seq<Byte> | |s| == PLU_BYTES witness seq(PLU_BYTES, _ => 0)

  predicate IsPlu(body: seq<Byte>) {
    |body| >= PLU_BYTES && (body[0] == PLU_BUY || body[0] == PLU_SELL)
  }

  /** A Price Level Update found in a segment: its sequence number and its 30 bytes. */
  datatype Found = Found(seqNo: int, plu: Plu)

  /** The updates among the bodies, numbered by their position in the unfiltered list. */
  function Updates(bodies: seq<seq<Byte>>, firstSeq: int): seq<Found> {
    if bodies == [] then [] else
      var n := |bodies| - 1;
      Updates(bodies[..n], firstSeq) + (if IsPlu(bodies[n]) then [Found(firstSeq + n, bodies[n][..PLU_BYTES])] else [])
  }

  function BodiesOf(buf: seq<Byte>): Walk
    requires HasHeader(buf)
  {
    Blocks(buf, HEADER_BYTES, End(buf), MessageCount(buf))
  }

  function UpdatesOf(buf: seq<Byte>): seq<Found> {
    if IsDeep(buf) then Updates(BodiesOf(buf).bodies, FirstSeq(buf)) else []
  }

  // The same, byte by byte.

  /** The first byte is the lowest. */
  lemma {:induction false} FieldFirstByte(buf: seq<Byte>, from: nat, width: nat)
    requires 0 < width && from + width <= |buf|
    ensures Field(buf, from, width) == buf[from] + 256 * Field(buf, from + 1, width - 1)
  {
    assert buf[from..from + width][1..] == buf[from + 1..from + width];
  }

  lemma {:induction false} FieldTwo(buf: seq<Byte>, from: nat)
    requires from + 2 <= |buf|
    ensures Field(buf, from, 2) == buf[from] + 256 * (buf[from + 1] as int)
  {
    FieldFirstByte(buf, from, 2);
    FieldFirstByte(buf, from + 1, 1);
    assert buf[from + 2..from + 2] == [];
  }

  lemma {:induction false} FieldFour(buf: seq<Byte>, from: nat)
    requires from + 4 <= |buf|
    ensures Field(buf, from, 4) ==
            buf[from] + 0x100 * (buf[from + 1] as int) + 0x1_0000 * (buf[from + 2] as int)
            + 0x100_0000 * (buf[from + 3] as int)
  {
    FieldFirstByte(buf, from, 4);
    FieldFirstByte(buf, from + 1, 3);
    FieldTwo(buf, from + 2);
  }

  lemma {:induction false} FieldEight(buf: seq<Byte>, from: nat)
    requires from + 8 <= |buf|
    ensures Field(buf, from, 8) == Field(buf, from, 4) + 0x1_0000_0000 * Field(buf, from + 4, 4)
  {
    FieldFirstByte(buf, from, 8);
    FieldFirstByte(buf, from + 1, 7);
    FieldFirstByte(buf, from + 2, 6);
    FieldFirstByte(buf, from + 3, 5);
    FieldFour(buf, from);
  }

  /** Two's complement: the highest bit is worth -2^63. */
  lemma {:induction false} SignedEight(buf: seq<Byte>, from: nat)
    requires from + 8 <= |buf|
    ensures var v, low := Signed(Field(buf, from, 8), WORD), Field(buf, from, 4);
            && -TWO_63 <= v < TWO_63
            && v == low + 0x1_0000_0000 * Field(buf, from + 4, 4) - if buf[from + 7] >= 128 then WORD else 0
  {
    FieldEight(buf, from);
    FieldFour(buf, from);
    FieldFour(buf, from + 4);
  }

  /** The header fields by their offsets. */
  lemma {:induction false} HeaderBytes(buf: seq<Byte>)
    ensures IsDeep(buf) <==> |buf| >= 40 && buf[2] == 0x04 && buf[3] == 0x80
    ensures |buf| >= 40 ==>
              && PayloadLen(buf) == buf[12] + 256 * (buf[13] as int)
              && MessageCount(buf) == buf[14] + 256 * (buf[15] as int)
              && FirstSeq(buf) == Field(buf, 24, 4) + 0x1_0000_0000 * Field(buf, 28, 4)
                                  - if buf[31] >= 128 then WORD else 0
  {
    if |buf| >= 40 {
      FieldTwo(buf, 2);
      FieldTwo(buf, 12);
      FieldTwo(buf, 14);
      SignedEight(buf, 24);
    }
  }

  lemma PluBytes(body: seq<Byte>)
    ensures IsPlu(body) <==> |body| >= 30 && body[0] as char in "85"
  {
    assert "85"[0] == '8' && "85"[1] == '5';
  }
}
