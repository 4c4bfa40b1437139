/** CRYPTO frames (`qbase/src/frame/crypto.rs`, section 19.6 of RFC 9000). */
module CryptoFrames {
  import opened Prelude
  import opened Varint

  const CRYPTO_FRAME_TYPE: byte := 0x06

  datatype CryptoFrame = CryptoFrame(offset: VarInt, length: VarInt)

  function FrameSize(f: CryptoFrame): nat { 1 + EncodingSize(f.offset) + EncodingSize(f.length) }

  // ---------------------------------------------------------------- how much data fits

  /** A frame with `n` bytes of data from `offset` on fits in the capacity. */
  predicate Fits(capacity: nat, offset: VarInt, n: VarInt) { FrameSize(CryptoFrame(offset, n)) + n <= capacity }

  /** Beyond this the code gives up. */
  const MAX_REMAINING: nat := 0x4000_0001

  predicate Supported(capacity: nat, offset: VarInt) { capacity <= 1 + EncodingSize(offset) + 2 + MAX_REMAINING }

  function EstimateMaxCapacity(capacity: nat, offset: VarInt): Option<nat>
    requires Supported(capacity, offset)
  {
    var least := 1 + EncodingSize(offset) + 2;
    if capacity < least then None
    else
      var remaining := capacity - least;
      if remaining <= 62 then Some(remaining + 1)
      else if remaining <= 0x3FFF then Some(remaining)
      else if remaining <= 0x4001 then Some(0x3FFF)
      else Some(remaining - 2)
  }

  /** The estimate is the largest amount of at least one byte that fits, and absent if none does. */
  lemma EstimateIsOptimal(capacity: nat, offset: VarInt)
    requires Supported(capacity, offset)
    ensures match EstimateMaxCapacity(capacity, offset)
            case None => forall n: VarInt :: 1 <= n ==> !Fits(capacity, offset, n)
            case Some(best) =>
              && 1 <= best <= VARINT_MAX && Fits(capacity, offset, best)
              && forall n: VarInt :: best < n ==> !Fits(capacity, offset, n)
  {
    var least := 1 + EncodingSize(offset) + 2;
    forall n: VarInt | 1 <= n ensures Fits(capacity, offset, n) <==> EncodingSize(n) + n <= capacity - least + 2 {}
    if capacity >= least {
      var best := EstimateMaxCapacity(capacity, offset).value;
      forall n: VarInt | best < n ensures !Fits(capacity, offset, n) { LargerIsLarger(best, n); }
    }
  }

  /** One byte more takes at least one byte more, two or more when the length gets wider. */
  lemma LargerIsLarger(a: VarInt, b: VarInt)
    requires a < b
    ensures EncodingSize(a) + a < EncodingSize(b) + b
    ensures EncodingSize(a + 1) + a + 1 <= EncodingSize(b) + b
  {
  }

  // ---------------------------------------------------------------- the codec

  datatype Outcome = Frame(offset: VarInt, data: seq<byte>, rest: seq<byte>) | NeedMore | TooLarge

  function Body(f: CryptoFrame): seq<byte> { Put(f.offset) + Put(f.length) }

  /** The sum tested adds the offset to itself. */
  predicate Accepts(f: CryptoFrame) { f.offset + f.offset <= VARINT_MAX }

  datatype Header = Head(frame: CryptoFrame, rest: seq<byte>) | HeadNeedMore | HeadTooLarge

  function ParseHeader(input: seq<byte>): Header {
    match Decode(input)
    case Incomplete => HeadNeedMore
    case Ok(offset, rest) =>
      match Decode(rest)
      case Incomplete => HeadNeedMore
      case Ok(length, rest') =>
        if offset + offset > VARINT_MAX then HeadTooLarge else Head(CryptoFrame(offset, length), rest')
  }

  function Parse(input: seq<byte>): Outcome {
    match ParseHeader(input)
    case HeadNeedMore => NeedMore
    case HeadTooLarge => TooLarge
    case Head(f, rest) =>
      if |rest| < f.length then NeedMore else Frame(f.offset, rest[..f.length], rest[f.length..])
  }

  lemma ParseHeaderOfBody(f: CryptoFrame, rest: seq<byte>)
    ensures ParseHeader(Body(f) + rest) == if Accepts(f) then Head(f, rest) else HeadTooLarge
  {
    ConcatAssociative(Put(f.offset), Put(f.length), rest);
    DecodePut(f.offset, Put(f.length) + rest);
    DecodePut(f.length, rest);
  }

  /**
   * Reading back a frame gives the offset, the data and the bytes that follow exactly when twice
   * the offset is within the varint range; otherwise the frame is refused.
   */
  lemma RoundTripIff(offset: VarInt, data: seq<byte>, rest: seq<byte>)
    requires |data| <= VARINT_MAX
    ensures var f := CryptoFrame(offset, |data|);
            && (Parse(Body(f) + data + rest) == Frame(offset, data, rest) <==> offset + offset <= VARINT_MAX)
            && (Parse(Body(f) + data + rest) == TooLarge <==> offset + offset > VARINT_MAX)
  {
    var f := CryptoFrame(offset, |data|);
    ConcatAssociative(Body(f), data, rest);
    ParseHeaderOfBody(f, data + rest);
    assert (data + rest)[..|data|] == data && (data + rest)[|data|..] == rest;
  }

  /** The documented bound: the last byte lies within the varint range. */
  predicate WithinLimit(f: CryptoFrame) { f.offset + f.length <= VARINT_MAX }

  /** Reading agrees with the documented bound on a frame unless the offset takes the length's place wrongly. */
  lemma MisjudgedIff(f: CryptoFrame, rest: seq<byte>)
    ensures (ParseHeader(Body(f) + rest).Head? <==> WithinLimit(f)) <==>
            !(f.length <= VARINT_MAX - f.offset < f.offset) && !(f.offset <= VARINT_MAX - f.offset < f.length)
  {
    ParseHeaderOfBody(f, rest);
  }

  /** Both mistakes happen: a frame within the limit is refused, one beyond it accepted. */
  lemma BothMistakesHappen()
    ensures var late := CryptoFrame(0x2000_0000_0000_0000, 1);
            WithinLimit(late) && ParseHeader(Body(late)) == HeadTooLarge
    ensures var long := CryptoFrame(1, VARINT_MAX);
            !WithinLimit(long) && ParseHeader(Body(long)) == Head(long, [])
  {
    var late, long := CryptoFrame(0x2000_0000_0000_0000, 1), CryptoFrame(1, VARINT_MAX);
    ParseHeaderOfBody(late, []);
    ParseHeaderOfBody(long, []);
    assert Body(late) + [] == Body(late) && Body(long) + [] == Body(long);
  }

  /** What is read, from whatever bytes, sits in the lower half of the range and is exactly what the bytes spell. */
  lemma ReadsWhatIsThere(input: seq<byte>) returns (w1: Width, w2: Width)
    requires Parse(input).Frame?
    ensures var p := Parse(input);
            && p.offset + p.offset <= VARINT_MAX && p.offset < Bound(w1)
            && |p.data| <= VARINT_MAX && |p.data| < Bound(w2)
            && input == Encode(p.offset, w1) + (Encode(|p.data|, w2) + (p.data + p.rest))
  {
    var rest := Decode(input).rest;
    w1, w2 := WidthOf(input[0]), WidthOf(rest[0]);
    EncodeDecode(input);
    EncodeDecode(rest);
    SplitAt(Decode(rest).rest, ParseHeader(input).frame.length);
  }

  lemma SplitAt(s: seq<byte>, n: nat)
    requires n <= |s|
    ensures s == s[..n] + s[n..]
  {
  }

  method PutDataFrame(buf: Buf, f: CryptoFrame, data: seq<byte>)
    requires f.length == |data| && FrameSize(f) + |data| <= buf.Remaining()
    modifies buf
    ensures buf.bytes == old(buf.bytes) + ([0x06] + (Put(f.offset) + Put(f.length) + data))
    ensures |buf.bytes| == |old(buf.bytes)| + FrameSize(f) + |data|
  {
    PutIsShortest(f.offset, Smallest(f.offset));
    PutIsShortest(f.length, Smallest(f.length));
    ghost var start := buf.bytes;
    buf.PutSlice([CRYPTO_FRAME_TYPE]);
    buf.PutVarint(f.offset);
    buf.PutVarint(f.length);
    buf.PutSlice(data);
    ConcatFour(start, [CRYPTO_FRAME_TYPE], Put(f.offset), Put(f.length), data);
  }

  lemma ConcatFour(s: seq<byte>, a: seq<byte>, b: seq<byte>, c: seq<byte>, d: seq<byte>)
    ensures s + a + b + c + d == s + (a + (b + c + d))
  {
  }
}
