/** ACK frames (`qbase/src/frame/ack.rs`, section 19.3 of RFC 9000). */
module AckFrames {
  import opened Prelude
  import opened Varint

  /** An additional range: the gap before it, and its length minus one. */
  datatype Step = Step(gap: VarInt, ack: VarInt)

  datatype EcnCounts = EcnCounts(ect0: VarInt, ect1: VarInt, ce: VarInt)

  datatype AckFrame = AckFrame(
    largest: VarInt, delay: VarInt, firstRange: VarInt, ranges: seq<Step>, ecn: Option<EcnCounts>)

  const ACK_FRAME_TYPE: byte := 0x02

  const HEAD_FIELDS: nat := 4
  const ECN_FIELDS: nat := 3
  const RANGE_FIELDS: nat := 2

  // ---------------------------------------------------------------- the fields, in wire order

  function Flat(steps: seq<Step>): (r: seq<VarInt>)
    ensures |r| == 2 * |steps|
  {
    if steps == [] then [] else [steps[0].gap, steps[0].ack] + Flat(steps[1..])
  }

  function Unflat(xs: seq<VarInt>): (r: seq<Step>)
    requires |xs| % 2 == 0
    ensures |r| == |xs| / 2
  {
    if xs == [] then [] else [Step(xs[0], xs[1])] + Unflat(xs[2..])
  }

  lemma {:induction false} UnflatFlat(steps: seq<Step>)
    ensures Unflat(Flat(steps)) == steps
  {
    if steps != [] {
      UnflatFlat(steps[1..]);
      assert Flat(steps)[2..] == Flat(steps[1..]);
    }
  }

  lemma {:induction false} FlatSnoc(steps: seq<Step>, s: Step)
    ensures Flat(steps + [s]) == Flat(steps) + [s.gap, s.ack]
  {
    if steps != [] {
      FlatSnoc(steps[1..], s);
      assert (steps + [s])[1..] == steps[1..] + [s];
    }
  }

  function EcnFields(ecn: Option<EcnCounts>): seq<VarInt> {
    if ecn.None? then [] else [ecn.value.ect0, ecn.value.ect1, ecn.value.ce]
  }

  /** The range count is itself a variable-length integer; the code unwraps the conversion. */
  predicate Encodable(f: AckFrame) { |f.ranges| <= VARINT_MAX }

  function Head(f: AckFrame): seq<VarInt>
    requires Encodable(f)
  {
    [f.largest, f.delay, |f.ranges|, f.firstRange]
  }

  // ---------------------------------------------------------------- writing

  function TypeByte(f: AckFrame): byte { if f.ecn.Some? then 0x03 else ACK_FRAME_TYPE }

  function EncodeBody(f: AckFrame): seq<byte>
    requires Encodable(f)
  {
    PutAll(Head(f)) + PutAll(Flat(f.ranges)) + PutAll(EcnFields(f.ecn))
  }

  function EncodeFrame(f: AckFrame): seq<byte>
    requires Encodable(f)
  {
    [TypeByte(f)] + EncodeBody(f)
  }

  function FrameSize(f: AckFrame): nat
    requires Encodable(f)
  {
    1 + SizeAll(Head(f)) + SizeAll(Flat(f.ranges)) + SizeAll(EcnFields(f.ecn))
  }

  function MaxFrameSize(f: AckFrame): nat {
    1 + 8 + 8 + 8 + 8 + |f.ranges| * 16 + if f.ecn.Some? then 24 else 0
  }

  /** The bytes written are as many as the size says, and never more than the reserved maximum. */
  lemma EncodedSize(f: AckFrame)
    requires Encodable(f)
    ensures |EncodeFrame(f)| == FrameSize(f) <= MaxFrameSize(f)
  {
    PutAllSize(Head(f));
    PutAllSize(Flat(f.ranges));
    PutAllSize(EcnFields(f.ecn));
  }

  lemma {:induction false} FlatAt(steps: seq<Step>, i: nat)
    requires i < |steps|
    ensures Flat(steps)[2 * i] == steps[i].gap && Flat(steps)[2 * i + 1] == steps[i].ack
  {
    if i > 0 {
      FlatAt(steps[1..], i - 1);
      assert Flat(steps)[2 * i] == Flat(steps[1..])[2 * (i - 1)];
      assert Flat(steps)[2 * i + 1] == Flat(steps[1..])[2 * (i - 1) + 1];
    }
  }

  /** What goes on the wire: the type says whether counts follow; each range is its gap, then its length. */
  lemma WireFormat(f: AckFrame) returns (xs: seq<VarInt>)
    requires Encodable(f)
    ensures EncodeFrame(f) == [if f.ecn.Some? then 0x03 else 0x02] + PutAll(xs)
    ensures |xs| == 4 + 2 * |f.ranges| + if f.ecn.Some? then 3 else 0
    ensures xs[0] == f.largest && xs[1] == f.delay && xs[2] == |f.ranges| && xs[3] == f.firstRange
    ensures forall i :: 0 <= i < |f.ranges| ==> xs[4 + 2 * i] == f.ranges[i].gap && xs[5 + 2 * i] == f.ranges[i].ack
    ensures f.ecn.Some? ==> xs[4 + 2 * |f.ranges|..] == [f.ecn.value.ect0, f.ecn.value.ect1, f.ecn.value.ce]
  {
    xs := Head(f) + Flat(f.ranges) + EcnFields(f.ecn);
    PutAllConcat(Head(f) + Flat(f.ranges), EcnFields(f.ecn));
    PutAllConcat(Head(f), Flat(f.ranges));
    forall i | 0 <= i < |f.ranges| ensures xs[4 + 2 * i] == f.ranges[i].gap && xs[5 + 2 * i] == f.ranges[i].ack {
      FlatAt(f.ranges, i);
    }
  }

  method PutRanges(buf: Buf, steps: seq<Step>)
    requires SizeAll(Flat(steps)) <= buf.Remaining()
    modifies buf
    ensures buf.bytes == old(buf.bytes) + PutAll(Flat(steps))
  {
    for i := 0 to |steps|
      invariant buf.bytes == old(buf.bytes) + PutAll(Flat(steps[..i]))
      invariant SizeAll(Flat(steps[i..])) <= buf.Remaining()
    {
      var pair := [steps[i].gap, steps[i].ack];
      FlatSnoc(steps[..i], steps[i]);
      PutAllConcat(Flat(steps[..i]), pair);
      PutAllConcat(pair, Flat(steps[i + 1..]));
      PutAllSize(pair);
      assert steps[..i + 1] == steps[..i] + [steps[i]] && steps[i..][1..] == steps[i + 1..];
      buf.PutVarints(pair);
    }
    assert steps[..|steps|] == steps;
  }

  /** The type and the four leading fields. */
  method PutHead(buf: Buf, f: AckFrame)
    requires Encodable(f) && 1 + SizeAll(Head(f)) <= buf.Remaining()
    modifies buf
    ensures buf.bytes == old(buf.bytes) + ([TypeByte(f)] + PutAll(Head(f)))
  {
    buf.PutSlice([if f.ecn.Some? then 0x03 else ACK_FRAME_TYPE]);
    buf.PutVarints([f.largest, f.delay, |f.ranges|, f.firstRange]);
    ConcatAssociative(old(buf.bytes), [TypeByte(f)], PutAll(Head(f)));
  }

  method PutEcn(buf: Buf, ecn: Option<EcnCounts>)
    requires SizeAll(EcnFields(ecn)) <= buf.Remaining()
    modifies buf
    ensures buf.bytes == old(buf.bytes) + PutAll(EcnFields(ecn))
  {
    if ecn.Some? {
      buf.PutVarints([ecn.value.ect0, ecn.value.ect1, ecn.value.ce]);
    }
  }

  lemma ConcatParts(start: seq<byte>, t: seq<byte>, a: seq<byte>, b: seq<byte>, c: seq<byte>)
    ensures start + (t + a) + b + c == start + (t + (a + b + c))
  {
  }

  method PutFrame(buf: Buf, f: AckFrame)
    requires Encodable(f) && FrameSize(f) <= buf.Remaining()
    modifies buf
    ensures buf.bytes == old(buf.bytes) + EncodeFrame(f)
  {
    PutAllSize(Head(f));
    PutAllSize(Flat(f.ranges));
    PutHead(buf, f);
    PutRanges(buf, f.ranges);
    PutEcn(buf, f.ecn);
    ConcatParts(old(buf.bytes), [TypeByte(f)], PutAll(Head(f)), PutAll(Flat(f.ranges)), PutAll(EcnFields(f.ecn)));
  }

  // ---------------------------------------------------------------- parsing

  function ParseRanges(n: nat, input: seq<byte>): (r: Parsed<seq<Step>>)
    ensures r.Ok? ==> |r.value| == n
  {
    match DecodeAll(RANGE_FIELDS * n, input)
    case Ok(xs, rest) => Ok(Unflat(xs), rest)
    case _ => Incomplete
  }

  function ParseEcn(input: seq<byte>): Parsed<EcnCounts> {
    match DecodeAll(ECN_FIELDS, input)
    case Ok(xs, rest) => Ok(EcnCounts(xs[0], xs[1], xs[2]), rest)
    case _ => Incomplete
  }

  function ParseTail(withEcn: bool, head: seq<VarInt>, input: seq<byte>): Parsed<AckFrame>
    requires |head| == 4
  {
    match ParseRanges(head[2], input)
    case Ok(steps, rest) =>
      if !withEcn then Ok(AckFrame(head[0], head[1], head[3], steps, None), rest)
      else
        (match ParseEcn(rest)
         case Ok(ecn, rest') => Ok(AckFrame(head[0], head[1], head[3], steps, Some(ecn)), rest')
         case _ => Incomplete)
    case _ => Incomplete
  }

  /** The frame body; the type byte, whose low bit says whether ECN counts follow, is already read. */
  function Parse(withEcn: bool, input: seq<byte>): Parsed<AckFrame> {
    match DecodeAll(HEAD_FIELDS, input)
    case Ok(head, rest) => ParseTail(withEcn, head, rest)
    case _ => Incomplete
  }

  lemma {:induction false} UnflatSnoc(xs: seq<VarInt>, gap: VarInt, ack: VarInt)
    requires |xs| % 2 == 0
    ensures Unflat(xs + [gap, ack]) == Unflat(xs) + [Step(gap, ack)]
  {
    if xs != [] {
      UnflatSnoc(xs[2..], gap, ack);
      assert (xs + [gap, ack])[2..] == xs[2..] + [gap, ack];
    }
  }

  /** Reads one more range after those already read. */
  function AndOneMore(first: Parsed<seq<Step>>): Parsed<seq<Step>> {
    match first
    case Ok(steps, rest) =>
      (match DecodeAll(RANGE_FIELDS, rest)
       case Ok(pair, rest') => Ok(steps + [Step(pair[0], pair[1])], rest')
       case _ => Incomplete)
    case _ => Incomplete
  }

  lemma UnflatPair(xs: seq<VarInt>, pair: seq<VarInt>)
    requires |xs| % 2 == 0 && |pair| == RANGE_FIELDS
    ensures Unflat(xs + pair) == Unflat(xs) + [Step(pair[0], pair[1])]
  {
    UnflatSnoc(xs, pair[0], pair[1]);
    assert pair == [pair[0], pair[1]];
  }

  lemma ParseRangesSnoc(n: nat, input: seq<byte>)
    ensures ParseRanges(n + 1, input) == AndOneMore(ParseRanges(n, input))
  {
    DecodeAllConcat(RANGE_FIELDS * n, RANGE_FIELDS, input);
    var first := DecodeAll(RANGE_FIELDS * n, input);
    if first.Ok? {
      var second := DecodeAll(RANGE_FIELDS, first.rest);
      if second.Ok? { UnflatPair(first.value, second.value); }
    }
  }

  lemma {:induction false} ParseRangesFails(n: nat, m: nat, input: seq<byte>)
    requires n <= m && ParseRanges(n, input) == Incomplete
    ensures ParseRanges(m, input) == Incomplete
    decreases m - n
  {
    if n < m {
      ParseRangesSnoc(n, input);
      ParseRangesFails(n + 1, m, input);
    }
  }

  /** The parser's counting loop: it stops at the first range that is cut off. */
  method ParseRangesLoop(count: nat, input: seq<byte>) returns (r: Parsed<seq<Step>>)
    ensures r == ParseRanges(count, input)
  {
    var ranges, remain, left := [], input, count;
    while left > 0
      invariant 0 <= left <= count && ParseRanges(count - left, input) == Ok(ranges, remain)
    {
      ParseRangesSnoc(count - left, input);
      var pair := DecodeAll(RANGE_FIELDS, remain);
      if !pair.Ok? {
        ParseRangesFails(count - left + 1, count, input);
        return Incomplete;
      }
      ranges, remain, left := ranges + [Step(pair.value[0], pair.value[1])], pair.rest, left - 1;
    }
    r := Ok(ranges, remain);
  }

  lemma ParseTailRoundTrip(f: AckFrame, rest: seq<byte>)
    requires Encodable(f)
    ensures ParseTail(f.ecn.Some?, Head(f), PutAll(Flat(f.ranges)) + (PutAll(EcnFields(f.ecn)) + rest)) == Ok(f, rest)
  {
    DecodeAllPut(Flat(f.ranges), PutAll(EcnFields(f.ecn)) + rest);
    UnflatFlat(f.ranges);
    if f.ecn.Some? {
      DecodeAllPut(EcnFields(f.ecn), rest);
    } else {
      assert PutAll(EcnFields(f.ecn)) + rest == rest;
    }
  }

  lemma ParseHead(withEcn: bool, head: seq<VarInt>, ranges: seq<byte>, ecn: seq<byte>, rest: seq<byte>)
    requires |head| == HEAD_FIELDS
    ensures Parse(withEcn, PutAll(head) + ranges + ecn + rest) == ParseTail(withEcn, head, ranges + (ecn + rest))
  {
    DecodeAllPut(head, ranges + (ecn + rest));
    ConcatAssociative(PutAll(head) + ranges, ecn, rest);
    ConcatAssociative(PutAll(head), ranges, ecn + rest);
  }

  lemma TypeSaysEcn(f: AckFrame)
    ensures TypeByte(f) % 2 == 1 <==> f.ecn.Some?
  {
  }

  /** Parsing what was written returns the frame and leaves the following bytes. */
  lemma ParseEncode(f: AckFrame, rest: seq<byte>)
    requires Encodable(f)
    ensures Parse(TypeByte(f) % 2 == 1, EncodeBody(f) + rest) == Ok(f, rest)
  {
    TypeSaysEcn(f);
    ParseHead(f.ecn.Some?, Head(f), PutAll(Flat(f.ranges)), PutAll(EcnFields(f.ecn)), rest);
    ParseTailRoundTrip(f, rest);
  }

  // ---------------------------------------------------------------- the acknowledged ranges

  datatype Range = Range(lo: nat, hi: nat)

  /** No subtraction of the walk goes below zero; the code does not check this. */
  predicate StepsFit(left: nat, steps: seq<Step>)
    decreases |steps|
  {
    steps == [] || (&& left >= steps[0].gap + 2 + steps[0].ack
                    && StepsFit(left - steps[0].gap - 2 - steps[0].ack, steps[1..]))
  }

  predicate WellFormed(f: AckFrame) { f.firstRange <= f.largest && StepsFit(f.largest - f.firstRange, f.ranges) }

  function RangesBelow(left: nat, steps: seq<Step>): (r: seq<Range>)
    requires StepsFit(left, steps)
    ensures |r| == |steps|
    decreases |steps|
  {
    if steps == [] then []
    else
      var hi := left - steps[0].gap - 2;
      [Range(hi - steps[0].ack, hi)] + RangesBelow(hi - steps[0].ack, steps[1..])
  }

  /** The ranges `iter` yields, largest first. */
  function Ranges(f: AckFrame): seq<Range>
    requires WellFormed(f)
  {
    [Range(f.largest - f.firstRange, f.largest)] + RangesBelow(f.largest - f.firstRange, f.ranges)
  }

  /** Strictly descending, disjoint, and with at least one number between neighbours. */
  ghost predicate Descending(rs: seq<Range>) {
    && (forall i :: 0 <= i < |rs| ==> rs[i].lo <= rs[i].hi)
    && (forall i, j :: 0 <= i < j < |rs| ==> rs[j].hi + 1 < rs[i].lo)
  }

  lemma {:induction false} RangesBelowDescend(left: nat, steps: seq<Step>)
    requires StepsFit(left, steps)
    ensures Descending(RangesBelow(left, steps))
    ensures forall i :: 0 <= i < |steps| ==> RangesBelow(left, steps)[i].hi + 1 < left
    decreases |steps|
  {
    if steps != [] {
      var lo := left - steps[0].gap - 2 - steps[0].ack;
      RangesBelowDescend(lo, steps[1..]);
    }
  }

  lemma RangesDescend(f: AckFrame)
    requires WellFormed(f)
    ensures Descending(Ranges(f)) && Ranges(f)[0].hi == f.largest
  {
    RangesBelowDescend(f.largest - f.firstRange, f.ranges);
  }

  /** The steps that describe `rs` below `left`. */
  function StepsOf(left: nat, rs: seq<Range>): seq<Step>
    requires left <= VARINT_MAX && Descending(rs) && (rs != [] ==> rs[0].hi + 1 < left)
    decreases |rs|
  {
    if rs == [] then []
    else [Step(left - rs[0].hi - 2, rs[0].hi - rs[0].lo)] + StepsOf(rs[0].lo, rs[1..])
  }

  lemma {:induction false} StepsOfRanges(left: nat, rs: seq<Range>)
    requires left <= VARINT_MAX && Descending(rs) && (rs != [] ==> rs[0].hi + 1 < left)
    ensures StepsFit(left, StepsOf(left, rs)) && RangesBelow(left, StepsOf(left, rs)) == rs
    decreases |rs|
  {
    if rs != [] {
      StepsOfRanges(rs[0].lo, rs[1..]);
      var steps := StepsOf(left, rs);
      assert steps[1..] == StepsOf(rs[0].lo, rs[1..]);
      assert rs == [rs[0]] + rs[1..];
    }
  }

  lemma {:induction false} RangesBelowInjective(left: nat, steps: seq<Step>, steps': seq<Step>)
    requires StepsFit(left, steps) && StepsFit(left, steps') && RangesBelow(left, steps) == RangesBelow(left, steps')
    ensures steps == steps'
    decreases |steps|
  {
    if steps != [] {
      var lo, rs, rs' := left - steps[0].gap - 2 - steps[0].ack, RangesBelow(left, steps), RangesBelow(left, steps');
      assert rs[0] == rs'[0];
      assert rs[1..] == RangesBelow(lo, steps[1..]) && rs'[1..] == RangesBelow(lo, steps'[1..]);
      RangesBelowInjective(lo, steps[1..], steps'[1..]);
      assert steps == [steps[0]] + steps[1..] && steps' == [steps'[0]] + steps'[1..];
    }
  }

  /** Two frames that acknowledge the same ranges are written the same way. */
  lemma FrameIsDetermined(f: AckFrame, g: AckFrame)
    requires WellFormed(f) && WellFormed(g) && Ranges(f) == Ranges(g) && f.delay == g.delay && f.ecn == g.ecn
    ensures f == g
  {
    assert Ranges(f)[0] == Ranges(g)[0];
    assert Ranges(f)[1..] == RangesBelow(f.largest - f.firstRange, f.ranges);
    assert Ranges(g)[1..] == RangesBelow(g.largest - g.firstRange, g.ranges);
    RangesBelowInjective(f.largest - f.firstRange, f.ranges, g.ranges);
  }

  /** Every descending list of ranges is what some frame's numbers describe. */
  lemma EveryRangeListHasAFrame(rs: seq<Range>, delay: VarInt, ecn: Option<EcnCounts>) returns (f: AckFrame)
    requires rs != [] && Descending(rs) && rs[0].hi <= VARINT_MAX
    ensures f.delay == delay && f.ecn == ecn && WellFormed(f) && Ranges(f) == rs
  {
    var first, others := rs[0], rs[1..];
    assert rs == [first] + others;
    StepsOfRanges(first.lo, others);
    var steps := StepsOf(first.lo, others);
    f := AckFrame(first.hi, delay, first.hi - first.lo, steps, ecn);
    assert RangesBelow(f.largest - f.firstRange, f.ranges) == others;
  }

  /** The parser accepts frames whose ranges fall below zero: one past the first packet, and a step too far. */
  lemma ParserAcceptsIllFormed(rest: seq<byte>)
    ensures var f := AckFrame(0, 0, 1, [], None); !WellFormed(f) && Parse(false, EncodeBody(f) + rest) == Ok(f, rest)
    ensures var g := AckFrame(5, 0, 5, [Step(0, 0)], None);
            !WellFormed(g) && Parse(false, EncodeBody(g) + rest) == Ok(g, rest)
  {
    ParseEncode(AckFrame(0, 0, 1, [], None), rest);
    ParseEncode(AckFrame(5, 0, 5, [Step(0, 0)], None), rest);
  }
}
