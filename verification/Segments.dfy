/** What the block walk recovers: all that was framed, a prefix of it when bytes are missing, and never too much. */
module Segments {
  import opened Sequences
  import opened Wire
  import opened Words

  // Framing: the inverse of the walk.

  /** The header fields the walk does not use, and the bytes after the announced payload. */
  datatype Envelope = Envelope(lead: seq<Byte>, ids: seq<Byte>, offset: seq<Byte>, sent: seq<Byte>, tail: seq<Byte>) {
    predicate Valid() {
      |lead| == 2 && |ids| == 8 && |offset| == 8 && |sent| == 8
    }
  }

  predicate Fits(bodies: seq<seq<Byte>>) {
    && |bodies| < 0x1_0000
    && |Serial(bodies)| < 0x1_0000
    && forall i | 0 <= i < |bodies| :: |bodies[i]| < 0x1_0000
  }

  function Serial(bodies: seq<seq<Byte>>): seq<Byte> {
    if bodies == [] then [] else ToBytes(|bodies[0]|, 2) + bodies[0] + Serial(bodies[1..])
  }

  function Header(e: Envelope, payload: nat, count: nat, first: Int64): (h: seq<Byte>)
    requires e.Valid()
    ensures |h| == HEADER_BYTES
  {
    e.lead + (ToBytes(PROTO_DEEP, 2) + (e.ids + (ToBytes(payload, 2) + (ToBytes(count, 2) + (e.offset + (
    ToBytes(Unsigned(first), 8) + e.sent))))))
  }

  function Segment(e: Envelope, bodies: seq<seq<Byte>>, first: Int64): seq<Byte>
    requires e.Valid()
  {
    Header(e, |Serial(bodies)|, |bodies|, first) + Serial(bodies) + e.tail
  }

  lemma FieldSkip(a: seq<Byte>, b: seq<Byte>, k: nat, width: nat)
    requires k + width <= |b|
    ensures Field(a + b, |a| + k, width) == Field(b, k, width)
  {
    assert (a + b)[|a| + k..|a| + k + width] == b[k..k + width];
  }

  lemma FieldFirst(v: nat, width: nat, after: seq<Byte>)
    requires v < Pow256(width)
    ensures Field(ToBytes(v, width) + after, 0, width) == v
  {
    EncodeDecode(v, width);
    assert (ToBytes(v, width) + after)[0..width] == ToBytes(v, width);
  }

  lemma FieldWithin(a: seq<Byte>, b: seq<Byte>, k: nat, width: nat)
    requires k + width <= |a|
    ensures Field(a + b, k, width) == Field(a, k, width)
  {
    assert (a + b)[k..k + width] == a[k..k + width];
  }

  lemma Widths()
    ensures Pow256(2) == 0x1_0000 && Pow256(8) == WORD
  {
    assert Pow256(4) == 0x1_0000_0000;
    assert Pow256(6) == 0x1_0000 * Pow256(4);
  }

  lemma FieldAt(before: seq<Byte>, v: nat, width: nat, after: seq<Byte>, buf: seq<Byte>)
    requires v < Pow256(width) && buf == before + (ToBytes(v, width) + after)
    ensures Field(buf, |before|, width) == v
  {
    FieldFirst(v, width, after);
    FieldSkip(before, ToBytes(v, width) + after, 0, width);
  }

  lemma {:induction false} HeaderFields(e: Envelope, payload: nat, count: nat, first: Int64)
    requires e.Valid() && payload < 0x1_0000 && count < 0x1_0000
    ensures var h := Header(e, payload, count, first);
            && Field(h, 2, 2) == PROTO_DEEP && Field(h, 12, 2) == payload
            && Field(h, 14, 2) == count && Field(h, 24, 8) == Unsigned(first)
  {
    Widths();
    var h := Header(e, payload, count, first);
    var fromSeq := ToBytes(Unsigned(first), 8) + e.sent;
    var fromCount := ToBytes(count, 2) + (e.offset + fromSeq);
    var fromLen := ToBytes(payload, 2) + fromCount;
    FieldAt(e.lead, PROTO_DEEP, 2, e.ids + fromLen, h);
    var toIds := e.lead + ToBytes(PROTO_DEEP, 2);
    var toLen := toIds + e.ids;
    AppendAssoc(e.lead, ToBytes(PROTO_DEEP, 2), e.ids + fromLen);
    AppendAssoc(toIds, e.ids, fromLen);
    FieldAt(toLen, payload, 2, fromCount, h);
    var toCount := toLen + ToBytes(payload, 2);
    AppendAssoc(toLen, ToBytes(payload, 2), fromCount);
    FieldAt(toCount, count, 2, e.offset + fromSeq, h);
    var toOffset := toCount + ToBytes(count, 2);
    var toSeq := toOffset + e.offset;
    AppendAssoc(toCount, ToBytes(count, 2), e.offset + fromSeq);
    AppendAssoc(toOffset, e.offset, fromSeq);
    FieldAt(toSeq, Unsigned(first), 8, e.sent, h);
  }

  lemma {:induction false} SegmentFields(e: Envelope, bodies: seq<seq<Byte>>, first: Int64)
    requires e.Valid() && Fits(bodies)
    ensures var buf := Segment(e, bodies, first);
            && IsDeep(buf) && PayloadLen(buf) == |Serial(bodies)|
            && MessageCount(buf) == |bodies| && FirstSeq(buf) == first
  {
    var h := Header(e, |Serial(bodies)|, |bodies|, first);
    var rest := Serial(bodies) + e.tail;
    assert Segment(e, bodies, first) == h + rest;
    HeaderFields(e, |Serial(bodies)|, |bodies|, first);
    FieldWithin(h, rest, 2, 2);
    FieldWithin(h, rest, 12, 2);
    FieldWithin(h, rest, 14, 2);
    FieldWithin(h, rest, 24, 8);
  }

  lemma {:induction false} FirstBlock(before: seq<Byte>, body: seq<Byte>, after: seq<Byte>, buf: seq<Byte>)
    requires |body| < 0x1_0000 && buf == before + (ToBytes(|body|, 2) + (body + after))
    ensures var next := before + ToBytes(|body|, 2) + body;
            Field(buf, |before|, 2) == |body| && buf[|before| + 2..|next|] == body && buf == next + after
  {
    Widths();
    FieldAt(before, |body|, 2, body + after, buf);
  }

  /** The walk goes through a whole block. */
  lemma {:induction false} WalkPasses(before: seq<Byte>, body: seq<Byte>, after: seq<Byte>, buf: seq<Byte>,
                                      next: nat, end: nat, count: nat, rest: Walk)
    requires |body| < 0x1_0000 && 0 < count && next == |before| + 2 + |body| && next <= end <= |buf|
    requires buf == before + (ToBytes(|body|, 2) + (body + after)) && rest == Blocks(buf, next, end, count - 1)
    ensures Blocks(buf, |before|, end, count) == Walk([body] + rest.bodies, rest.truncated)
  {
    FirstBlock(before, body, after, buf);
  }

  lemma {:induction false} SerialFirst(before: seq<Byte>, bodies: seq<seq<Byte>>, after: seq<Byte>)
    requires bodies != []
    ensures var buf, body, rest := before + Serial(bodies) + after, bodies[0], Serial(bodies[1..]) + after;
            && buf == before + (ToBytes(|body|, 2) + (body + rest))
            && buf == (before + ToBytes(|body|, 2) + body) + Serial(bodies[1..]) + after
  {
    Regroup(before, ToBytes(|bodies[0]|, 2), bodies[0], Serial(bodies[1..]), after);
  }

  lemma {:induction false} WalkFraming(before: seq<Byte>, bodies: seq<seq<Byte>>, after: seq<Byte>, buf: seq<Byte>,
                                       end: nat)
    requires forall i | 0 <= i < |bodies| :: |bodies[i]| < 0x1_0000
    requires buf == before + Serial(bodies) + after && end == |before| + |Serial(bodies)|
    ensures Blocks(buf, |before|, end, |bodies|) == Walk(bodies, false)
    decreases |bodies|
  {
    if bodies != [] {
      var body, others := bodies[0], bodies[1..];
      var rest, next := Serial(others) + after, before + ToBytes(|body|, 2) + body;
      SerialFirst(before, bodies, after);
      WalkFraming(next, others, after, buf, end);
      WalkPasses(before, body, rest, buf, |next|, end, |bodies|, Walk(others, false));
      assert bodies == [body] + others;
    }
  }

  /** Framing any bodies and walking the segment gives them back, whatever follows the payload. */
  lemma {:induction false} FramingRoundTrip(e: Envelope, bodies: seq<seq<Byte>>, first: Int64)
    requires e.Valid() && Fits(bodies)
    ensures var buf := Segment(e, bodies, first);
            && IsDeep(buf) && MessageCount(buf) == |bodies| && FirstSeq(buf) == first
            && BodiesOf(buf) == Walk(bodies, false) && UpdatesOf(buf) == Updates(bodies, first)
  {
    SegmentFields(e, bodies, first);
    WalkFraming(Header(e, |Serial(bodies)|, |bodies|, first), bodies, e.tail, Segment(e, bodies, first),
                HEADER_BYTES + |Serial(bodies)|);
  }

  // The updates are exactly the long enough bodies of the two types, numbered by their position.

  function CountPlu(bodies: seq<seq<Byte>>): (n: nat)
    ensures n <= |bodies|
  {
    Count(bodies, IsPlu)
  }

  lemma {:induction false} UpdatesCounted(bodies: seq<seq<Byte>>, first: int)
    ensures |Updates(bodies, first)| == CountPlu(bodies)
  {
    if bodies != [] {
      UpdatesCounted(bodies[..|bodies| - 1], first);
    }
  }

  lemma {:induction false} UpdateAt(bodies: seq<seq<Byte>>, first: int, i: nat)
    requires i < |bodies| && IsPlu(bodies[i])
    ensures CountPlu(bodies[..i]) < |Updates(bodies, first)|
    ensures Updates(bodies, first)[CountPlu(bodies[..i])] == Found(first + i, bodies[i][..PLU_BYTES])
    decreases |bodies|
  {
    var n := |bodies| - 1;
    UpdatesCounted(bodies[..n], first);
    if i < n {
      UpdateAt(bodies[..n], first, i);
      assert bodies[..n][..i] == bodies[..i];
    }
  }

  // The header's count.

  /** The walk goes through at most `count` blocks; with a smaller count it stops sooner, and never in a cut block. */
  lemma {:induction false} CountLimits(buf: seq<Byte>, pos: nat, end: nat, count: nat, n: nat)
    requires end <= |buf| && n <= count
    ensures var whole := Blocks(buf, pos, end, count);
            && |whole.bodies| <= count
            && Blocks(buf, pos, end, n) == if n <= |whole.bodies| then Walk(whole.bodies[..n], false) else whole
    decreases count
  {
    if count != 0 && pos + 2 <= end {
      var next := pos + 2 + Field(buf, pos, 2);
      if next <= end {
        CountLimits(buf, next, end, count - 1, if n == 0 then 0 else n - 1);
      }
    }
  }

  // Cutting a datagram short.

  lemma {:induction false} BlocksCut(buf: seq<Byte>, cut: seq<Byte>, pos: nat, e: nat, e': nat, count: nat)
    requires e' <= e <= |buf| && e' <= |cut| <= |buf| && cut == buf[..|cut|]
    ensures Blocks(cut, pos, e', count).bodies <= Blocks(buf, pos, e, count).bodies
    ensures e == e' ==> Blocks(cut, pos, e', count) == Blocks(buf, pos, e, count)
    decreases count
  {
    if count != 0 && pos + 2 <= e' {
      assert cut[pos..pos + 2] == buf[pos..pos + 2];
      var next := pos + 2 + Field(buf, pos, 2);
      if next <= e' {
        assert cut[pos + 2..next] == buf[pos + 2..next];
        BlocksCut(buf, cut, next, e, e', count - 1);
      }
    }
  }

  lemma {:induction false} SameHeader(buf: seq<Byte>, n: nat)
    requires HEADER_BYTES <= n <= |buf|
    ensures var cut := buf[..n];
            && ProtocolId(cut) == ProtocolId(buf) && PayloadLen(cut) == PayloadLen(buf)
            && MessageCount(cut) == MessageCount(buf) && FirstSeq(cut) == FirstSeq(buf)
  {
    var cut := buf[..n];
    assert cut[2..4] == buf[2..4] && cut[12..14] == buf[12..14] && cut[14..16] == buf[14..16] &&
           cut[24..32] == buf[24..32];
  }

  lemma {:induction false} UpdatesPrefix(a: seq<seq<Byte>>, b: seq<seq<Byte>>, first: int)
    requires a <= b
    ensures Updates(a, first) <= Updates(b, first)
    decreases |b|
  {
    if |a| < |b| {
      var rest := b[..|b| - 1];
      assert a <= rest by {
        assert rest[..|a|] == b[..|a|];
      }
      UpdatesPrefix(a, rest, first);
    } else {
      assert a == b;
    }
  }

  /** Cutting a datagram anywhere after its header leaves a prefix of its updates. */
  lemma {:induction false} CutIsPrefix(buf: seq<Byte>, n: nat)
    requires HEADER_BYTES <= n <= |buf|
    ensures UpdatesOf(buf[..n]) <= UpdatesOf(buf)
  {
    SameHeader(buf, n);
    var cut := buf[..n];
    BlocksCut(buf, cut, HEADER_BYTES, End(buf), End(cut), MessageCount(buf));
    UpdatesPrefix(BodiesOf(cut).bodies, BodiesOf(buf).bodies, FirstSeq(buf));
  }

  /** Bytes past the announced payload change nothing. */
  lemma {:induction false} OnlyPayloadMatters(buf: seq<Byte>, n: nat)
    requires HEADER_BYTES <= n <= |buf| && HEADER_BYTES + PayloadLen(buf) <= n
    ensures var cut := buf[..n];
            && ProtocolId(cut) == ProtocolId(buf) && MessageCount(cut) == MessageCount(buf) &&
               FirstSeq(cut) == FirstSeq(buf)
            && BodiesOf(cut) == BodiesOf(buf)
  {
    SameHeader(buf, n);
    BlocksCut(buf, buf[..n], HEADER_BYTES, End(buf), End(buf[..n]), MessageCount(buf));
  }

  lemma {:induction false} FramingSplit(bodies: seq<seq<Byte>>, k: nat)
    requires k < |bodies|
    ensures |Serial(bodies[..k])| + 2 + |bodies[k]| <= |Serial(bodies)|
    decreases k
  {
    if k > 0 {
      FramingSplit(bodies[1..], k - 1);
      assert bodies[..k][1..] == bodies[1..][..k - 1];
    }
  }

  lemma {:induction false} FramingTaken(bodies: seq<seq<Byte>>, k: nat)
    requires 0 < k <= |bodies|
    ensures bodies[..k] == [bodies[0]] + bodies[1..][..k - 1]
    ensures |Serial(bodies[..k])| == 2 + |bodies[0]| + |Serial(bodies[1..][..k - 1])|
  {
    assert bodies[..k][1..] == bodies[1..][..k - 1];
  }

  /** The walk stops in a block of which only `r` bytes are there. */
  lemma {:induction false} WalkStops(before: seq<Byte>, body: seq<Byte>, after: seq<Byte>, buf: seq<Byte>, r: nat,
                                     count: nat)
    requires |body| < 0x1_0000 && r < 2 + |body| && 0 < count
    requires buf == before + (ToBytes(|body|, 2) + (body + after))
    ensures Blocks(buf, |before|, |before| + r, count) == Walk([], r >= 2)
  {
    FirstBlock(before, body, after, buf);
  }

  lemma {:induction false} WalkCut(before: seq<Byte>, bodies: seq<seq<Byte>>, after: seq<Byte>, buf: seq<Byte>,
                                   k: nat, r: nat, end: nat)
    requires forall i | 0 <= i < |bodies| :: |bodies[i]| < 0x1_0000
    requires buf == before + Serial(bodies) + after
    requires k < |bodies| && r < 2 + |bodies[k]| && end == |before| + |Serial(bodies[..k])| + r
    ensures end <= |buf| && Blocks(buf, |before|, end, |bodies|) == Walk(bodies[..k], r >= 2)
    decreases k
  {
    FramingSplit(bodies, k);
    var body, others := bodies[0], bodies[1..];
    var rest := Serial(others) + after;
    SerialFirst(before, bodies, after);
    if k == 0 {
      assert bodies[..0] == [];
      WalkStops(before, body, rest, buf, r, |bodies|);
    } else {
      var next := before + ToBytes(|body|, 2) + body;
      FramingTaken(bodies, k);
      WalkCut(next, others, after, buf, k - 1, r, end);
      WalkPasses(before, body, rest, buf, |next|, end, |bodies|, Walk(others[..k - 1], r >= 2));
    }
  }

  /**
    * A segment cut `r` bytes into the block of body `k` gives exactly the bodies before it, and counts as truncated iff
    * the length of that block got through.
    */
  lemma {:induction false} CutRoundTrip(e: Envelope, bodies: seq<seq<Byte>>, first: Int64, k: nat, r: nat)
    requires e.Valid() && Fits(bodies) && k < |bodies| && r < 2 + |bodies[k]|
    ensures var n := HEADER_BYTES + |Serial(bodies[..k])| + r;
            var buf := Segment(e, bodies, first);
            n <= |buf| && IsDeep(buf[..n]) && MessageCount(buf[..n]) == |bodies| && FirstSeq(buf[..n]) == first
            && BodiesOf(buf[..n]) == Walk(bodies[..k], r >= 2)
  {
    var n := HEADER_BYTES + |Serial(bodies[..k])| + r;
    var buf := Segment(e, bodies, first);
    SegmentFields(e, bodies, first);
    FramingSplit(bodies, k);
    SameHeader(buf, n);
    WalkCut(Header(e, |Serial(bodies)|, |bodies|, first), bodies, e.tail, buf, k, r, n);
    BlocksCut(buf, buf[..n], HEADER_BYTES, n, n, |bodies|);
  }

  // How many updates fit in a segment.

  const BLOCK_BYTES: nat := 2 + PLU_BYTES

  function Bytes(bodies: seq<seq<Byte>>): nat {
    if bodies == [] then 0 else 2 + |bodies[0]| + Bytes(bodies[1..])
  }

  lemma {:induction false} BlocksBytes(buf: seq<Byte>, pos: nat, end: nat, count: nat)
    requires pos <= end <= |buf|
    ensures Bytes(Blocks(buf, pos, end, count).bodies) <= end - pos
    decreases count
  {
    if count != 0 && pos + 2 <= end {
      var next := pos + 2 + Field(buf, pos, 2);
      if next <= end {
        BlocksBytes(buf, next, end, count - 1);
        var rest := Blocks(buf, next, end, count - 1).bodies;
        assert ([buf[pos + 2..next]] + rest)[1..] == rest;
      }
    }
  }

  lemma {:induction false} BytesLast(bodies: seq<seq<Byte>>)
    requires bodies != []
    ensures Bytes(bodies) == Bytes(bodies[..|bodies| - 1]) + 2 + |bodies[|bodies| - 1]|
    decreases |bodies|
  {
    if |bodies| > 1 {
      BytesLast(bodies[1..]);
      assert bodies[1..][..|bodies| - 2] == bodies[..|bodies| - 1][1..];
    }
  }

  lemma {:induction false} UpdatesTakeBytes(bodies: seq<seq<Byte>>)
    ensures BLOCK_BYTES * CountPlu(bodies) <= Bytes(bodies)
  {
    if bodies != [] {
      BytesLast(bodies);
      UpdatesTakeBytes(bodies[..|bodies| - 1]);
    }
  }

  /** A segment of n bytes holds at most (n - 40) / 32 updates. */
  lemma {:induction false} UpdatesPerSegment(buf: seq<Byte>)
    requires HasHeader(buf)
    ensures |UpdatesOf(buf)| <= (|buf| - HEADER_BYTES) / BLOCK_BYTES
  {
    if IsDeep(buf) {
      BodiesBytes(buf, HEADER_BYTES, End(buf), MessageCount(buf), FirstSeq(buf));
    }
  }

  lemma {:induction false} BodiesBytes(buf: seq<Byte>, pos: nat, end: nat, count: nat, first: int)
    requires pos <= end <= |buf|
    ensures |Updates(Blocks(buf, pos, end, count).bodies, first)| <= (|buf| - pos) / BLOCK_BYTES
  {
    var bodies := Blocks(buf, pos, end, count).bodies;
    BlocksBytes(buf, pos, end, count);
    UpdatesTakeBytes(bodies);
    UpdatesCounted(bodies, first);
    Quotient(CountPlu(bodies), |buf| - pos);
  }

  lemma Quotient(n: nat, total: nat)
    requires BLOCK_BYTES * n <= total
    ensures n <= total / BLOCK_BYTES
  {
  }

  /** And that many do fit: the bound is met with equality. */
  lemma {:induction false} UpdatesPerSegmentMet(e: Envelope, plu: seq<Byte>, n: nat, first: Int64)
    requires e.Valid() && e.tail == [] && |plu| == PLU_BYTES && IsPlu(plu) && BLOCK_BYTES * n < 0x1_0000
    ensures var buf := Segment(e, seq(n, _ => plu), first);
            |buf| == HEADER_BYTES + BLOCK_BYTES * n && |UpdatesOf(buf)| == n && IsDeep(buf) && MessageCount(buf) == n
  {
    var bodies := seq(n, _ => plu);
    Repeated(plu, n);
    FramingRoundTrip(e, bodies, first);
    UpdatesCounted(bodies, first);
  }

  lemma {:induction false} Repeated(plu: seq<Byte>, n: nat)
    requires |plu| == PLU_BYTES && IsPlu(plu)
    ensures |Serial(seq(n, _ => plu))| == BLOCK_BYTES * n && CountPlu(seq(n, _ => plu)) == n
  {
    if n != 0 {
      var bodies := seq(n, _ => plu);
      Repeated(plu, n - 1);
      assert bodies[1..] == seq(n - 1, _ => plu) && bodies[..n - 1] == seq(n - 1, _ => plu);
    }
  }
}
