/** QUIC variable-length integers (`qbase/src/varint.rs`, section 16 of RFC 9000). */
module Varint {
  import opened Prelude

  type VarInt = x: nat | x <= VARINT_MAX

  datatype Width = One | Two | Four | Eight

  datatype Parsed<+T> = Ok(value: T, rest: seq<byte>) | Incomplete

  function Bytes(w: Width): nat {
    match w case One => 1 case Two => 2 case Four => 4 case Eight => 8
  }

  /** The two high bits of the word say how long it is. */
  function Tag(w: Width): nat {
    match w case One => 0 case Two => 0x4000 case Four => 0x8000_0000 case Eight => 0xC000_0000_0000_0000
  }

  /** The bits below the two high ones. */
  function LowBits(word: nat, w: Width): VarInt {
    match w
    case One => word % 0x40
    case Two => word % 0x4000
    case Four => word % 0x4000_0000
    case Eight => word % 0x4000_0000_0000_0000
  }

  /** Values below this fit the width. */
  function Bound(w: Width): nat {
    match w case One => 0x40 case Two => 0x4000 case Four => 0x4000_0000 case Eight => 0x4000_0000_0000_0000
  }

  function Smallest(x: VarInt): Width {
    if x < 0x40 then One else if x < 0x4000 then Two else if x < 0x4000_0000 then Four else Eight
  }

  function EncodingSize(x: VarInt): nat { Bytes(Smallest(x)) }

  function Power256(n: nat): nat { if n == 0 then 1 else 256 * Power256(n - 1) }

  function BigEndian(n: nat, x: nat): (r: seq<byte>)
    ensures |r| == n
  {
    if n == 0 then [] else BigEndian(n - 1, x / 256) + [x % 256]
  }

  function FromBigEndian(bs: seq<byte>): nat {
    if bs == [] then 0 else 256 * FromBigEndian(bs[..|bs| - 1]) + bs[|bs| - 1]
  }

  /** The value with its width prefix in the top two bits, most significant byte first. */
  function Encode(x: VarInt, w: Width): (r: seq<byte>)
    requires x < Bound(w)
    ensures |r| == Bytes(w)
  {
    BigEndian(Bytes(w), Tag(w) + x)
  }

  function Put(x: VarInt): seq<byte> { Encode(x, Smallest(x)) }

  function WidthOf(first: byte): Width {
    if first < 0x40 then One else if first < 0x80 then Two else if first < 0xC0 then Four else Eight
  }

  function Decode(input: seq<byte>): (r: Parsed<VarInt>)
    ensures r.Ok? ==> |r.rest| < |input|
  {
    if input == [] then Incomplete
    else
      var w := WidthOf(input[0]);
      if |input| < Bytes(w) then Incomplete
      else Ok(LowBits(FromBigEndian(input[..Bytes(w)]), w), input[Bytes(w)..])
  }

  // ---------------------------------------------------------------- big-endian words

  lemma {:induction false} BigEndianRoundTrip(n: nat, x: nat)
    requires x < Power256(n)
    ensures FromBigEndian(BigEndian(n, x)) == x
  {
    if n > 0 {
      BigEndianRoundTrip(n - 1, x / 256);
      assert BigEndian(n, x)[..n - 1] == BigEndian(n - 1, x / 256);
    }
  }

  lemma {:induction false} BytesRoundTrip(bs: seq<byte>)
    ensures FromBigEndian(bs) < Power256(|bs|)
    ensures BigEndian(|bs|, FromBigEndian(bs)) == bs
  {
    if bs != [] {
      BytesRoundTrip(bs[..|bs| - 1]);
      assert FromBigEndian(bs) / 256 == FromBigEndian(bs[..|bs| - 1]);
    }
  }

  /** The first byte weighs Power256(n - 1). */
  lemma {:induction false} FirstByte(bs: seq<byte>)
    requires bs != []
    ensures var top := Power256(|bs| - 1); bs[0] * top <= FromBigEndian(bs) < bs[0] * top + top
  {
    var last := |bs| - 1;
    if last == 0 {
      assert bs[..0] == [];
    } else {
      FirstByte(bs[..last]);
      var b, half := bs[0], Power256(last - 1);
      assert b * (256 * half) == 256 * (b * half);
    }
  }

  lemma Powers()
    ensures Power256(0) == 1 && Power256(1) == 0x100 && Power256(3) == 0x100_0000 && Power256(7) == 0x100_0000_0000_0000
    ensures Power256(2) == 0x1_0000 && Power256(4) == 0x1_0000_0000 && Power256(8) == 0x1_0000_0000_0000_0000
  {
    assert Power256(2) == 256 * Power256(1);
    assert Power256(3) == 256 * Power256(2);
    assert Power256(4) == 256 * Power256(3);
    assert Power256(5) == 256 * Power256(4);
    assert Power256(6) == 256 * Power256(5);
    assert Power256(7) == 256 * Power256(6);
  }

  /** The width read off the first byte is the one the word's top two bits encode. */
  lemma WidthOfWord(bs: seq<byte>, w: Width)
    requires |bs| == Bytes(w)
    ensures WidthOf(bs[0]) == w <==> Tag(w) <= FromBigEndian(bs) < Tag(w) + Bound(w)
  {
    FirstByte(bs);
    Powers();
  }

  // ---------------------------------------------------------------- the codec

  /** The word fits its bytes, and its low bits are the value. */
  lemma WordBits(x: VarInt, w: Width)
    requires x < Bound(w)
    ensures Tag(w) + x < Power256(Bytes(w)) && LowBits(Tag(w) + x, w) == x
  {
    Powers();
  }

  lemma EncodeWord(x: VarInt, w: Width)
    requires x < Bound(w)
    ensures FromBigEndian(Encode(x, w)) == Tag(w) + x && WidthOf(Encode(x, w)[0]) == w
  {
    WordBits(x, w);
    BigEndianRoundTrip(Bytes(w), Tag(w) + x);
    WidthOfWord(Encode(x, w), w);
  }

  /** Reading back what was written gives the value and the following bytes, at every permitted width. */
  lemma DecodeEncode(x: VarInt, w: Width, rest: seq<byte>)
    requires x < Bound(w)
    ensures Decode(Encode(x, w) + rest) == Ok(x, rest)
  {
    var bs := Encode(x, w);
    WordBits(x, w);
    EncodeWord(x, w);
    assert (bs + rest)[..Bytes(w)] == bs && (bs + rest)[Bytes(w)..] == rest;
  }

  lemma TagAndLowBits(word: nat, w: Width)
    requires Tag(w) <= word < Tag(w) + Bound(w)
    ensures Tag(w) + LowBits(word, w) == word && LowBits(word, w) < Bound(w)
  {
  }

  /** Every accepted input is the encoding, at some width, of the value read, followed by the rest. */
  lemma EncodeDecode(input: seq<byte>)
    requires Decode(input).Ok?
    ensures var w := WidthOf(input[0]);
            Decode(input).value < Bound(w) && input == Encode(Decode(input).value, w) + Decode(input).rest
  {
    var w := WidthOf(input[0]);
    var bs := input[..Bytes(w)];
    BytesRoundTrip(bs);
    WidthOfWord(bs, w);
    TagAndLowBits(FromBigEndian(bs), w);
    assert input == bs + input[Bytes(w)..];
  }

  /** The writer picks the shortest width that fits. */
  lemma PutIsShortest(x: VarInt, w: Width)
    requires x < Bound(w)
    ensures |Put(x)| == EncodingSize(x) <= |Encode(x, w)|
  {
  }

  lemma DecodePut(x: VarInt, rest: seq<byte>)
    ensures Decode(Put(x) + rest) == Ok(x, rest)
  {
    DecodeEncode(x, Smallest(x), rest);
  }

  // ---------------------------------------------------------------- the bytes

  /** What goes on the wire: the width in the top two bits of the first byte, and the value, high bytes first, below. */
  lemma WireFormat(x: VarInt, w: Width)
    requires x < Bound(w)
    ensures Encode(x, w)[0]
         == match w
            case One => x
            case Two => 0x40 + x / 0x100
            case Four => 0x80 + x / 0x100_0000
            case Eight => 0xC0 + x / 0x100_0000_0000_0000
    ensures FromBigEndian(Encode(x, w))
         == x + match w case One => 0 case Two => 0x4000 case Four => 0x8000_0000 case Eight => 0xC000_0000_0000_0000
  {
    EncodeWord(x, w);
    FirstByte(Encode(x, w));
    Powers();
  }

  lemma FromSnoc(bs: seq<byte>, b: byte)
    ensures FromBigEndian(bs + [b]) == 256 * FromBigEndian(bs) + b
  {
    assert (bs + [b])[..|bs|] == bs;
  }

  lemma FromTwo(a: byte, b: byte)
    ensures FromBigEndian([a, b]) == 0x100 * a + b
  {
    FromSnoc([], a);
    FromSnoc([a], b);
    assert [] + [a] == [a] && [a] + [b] == [a, b];
  }

  lemma FromFour(a: byte, b: byte, c: byte, d: byte)
    ensures FromBigEndian([a, b, c, d]) == 0x100_0000 * a + 0x1_0000 * b + 0x100 * c + d
  {
    FromTwo(a, b);
    FromSnoc([a, b], c);
    FromSnoc([a, b, c], d);
    assert [a, b] + [c] == [a, b, c] && [a, b, c] + [d] == [a, b, c, d];
  }

  /** Examples of section A.1 of RFC 9000. */
  lemma Examples()
    ensures Put(494878333) == [0x9d, 0x7f, 0x3e, 0x7d] && Put(15293) == [0x7b, 0xbd] && Put(37) == [0x25]
    ensures Decode([0x40, 0x25]) == Ok(37, [])
  {
    FromFour(0x9d, 0x7f, 0x3e, 0x7d);
    BytesRoundTrip([0x9d, 0x7f, 0x3e, 0x7d]);
    FromTwo(0x7b, 0xbd);
    BytesRoundTrip([0x7b, 0xbd]);
    WireFormat(37, One);
    FromTwo(0x40, 0x25);
    assert [0x40, 0x25][2..] == [] && [0x40, 0x25][..2] == [0x40, 0x25];
  }

  // ---------------------------------------------------------------- several in a row

  function PutAll(xs: seq<VarInt>): seq<byte> {
    if xs == [] then [] else Put(xs[0]) + PutAll(xs[1..])
  }

  function SizeAll(xs: seq<VarInt>): nat {
    if xs == [] then 0 else EncodingSize(xs[0]) + SizeAll(xs[1..])
  }

  function DecodeAll(n: nat, input: seq<byte>): (r: Parsed<seq<VarInt>>)
    ensures r.Ok? ==> |r.value| == n
    decreases n
  {
    if n == 0 then Ok([], input)
    else match Decode(input)
      case Ok(x, rest) =>
        (match DecodeAll(n - 1, rest)
         case Ok(xs, rest') => Ok([x] + xs, rest')
         case _ => Incomplete)
      case _ => Incomplete
  }

  lemma DecodeAllCons(front: seq<byte>, x: VarInt, xs: seq<VarInt>, tail: seq<byte>, rest: seq<byte>)
    requires Decode(front + tail) == Ok(x, tail) && DecodeAll(|xs|, tail) == Ok(xs, rest)
    ensures DecodeAll(|xs| + 1, front + tail) == Ok([x] + xs, rest)
  {
  }

  lemma {:induction false} DecodeAllPut(xs: seq<VarInt>, rest: seq<byte>)
    ensures DecodeAll(|xs|, PutAll(xs) + rest) == Ok(xs, rest)
  {
    if xs != [] {
      var x, front, tail := xs[0], Put(xs[0]), PutAll(xs[1..]) + rest;
      assert [x] + xs[1..] == xs;
      DecodePut(x, tail);
      DecodeAllPut(xs[1..], rest);
      DecodeAllCons(front, x, xs[1..], tail, rest);
      ConcatAssociative(front, PutAll(xs[1..]), rest);
    }
  }

  lemma {:induction false} PutAllSize(xs: seq<VarInt>)
    ensures |PutAll(xs)| == SizeAll(xs) <= 8 * |xs|
  {
    if xs != [] { PutAllSize(xs[1..]); }
  }

  lemma {:induction false} PutAllConcat(xs: seq<VarInt>, ys: seq<VarInt>)
    ensures PutAll(xs + ys) == PutAll(xs) + PutAll(ys)
    ensures SizeAll(xs + ys) == SizeAll(xs) + SizeAll(ys)
  {
    if xs == [] {
      assert xs + ys == ys;
    } else {
      PutAllConcat(xs[1..], ys);
      assert (xs + ys)[1..] == xs[1..] + ys;
      ConcatAssociative(Put(xs[0]), PutAll(xs[1..]), PutAll(ys));
    }
  }

  /** Parsing in two stages. */
  function Then(n: nat, first: Parsed<seq<VarInt>>): Parsed<seq<VarInt>> {
    match first
    case Ok(xs, rest) =>
      (match DecodeAll(n, rest)
       case Ok(ys, rest') => Ok(xs + ys, rest')
       case _ => Incomplete)
    case _ => Incomplete
  }

  lemma {:induction false} DecodeAllConcat(n: nat, m: nat, input: seq<byte>)
    ensures DecodeAll(n + m, input) == Then(m, DecodeAll(n, input))
    decreases n
  {
    if n == 0 {
      assert DecodeAll(m, input).Ok? ==> [] + DecodeAll(m, input).value == DecodeAll(m, input).value;
    } else if Decode(input).Ok? {
      var x, rest := Decode(input).value, Decode(input).rest;
      DecodeAllConcat(n - 1, m, rest);
      var first := DecodeAll(n - 1, rest);
      if first.Ok? && DecodeAll(m, first.rest).Ok? {
        ConcatAssociative([x], first.value, DecodeAll(m, first.rest).value);
      }
    }
  }

  // ---------------------------------------------------------------- the writer

  /** An output buffer of fixed size, filled front to back. */
  class Buf {
    var bytes: seq<byte>
    const capacity: nat

    constructor (capacity: nat)
      ensures bytes == [] && this.capacity == capacity
    {
      bytes := [];
      this.capacity := capacity;
    }

    function Remaining(): int
      reads this
    {
      capacity - |bytes|
    }

    /** Writing past the end panics. */
    method PutSlice(data: seq<byte>)
      requires |data| <= Remaining()
      modifies this
      ensures bytes == old(bytes) + data
    {
      bytes := bytes + data;
    }

    method PutVarint(x: VarInt)
      requires EncodingSize(x) <= Remaining()
      modifies this
      ensures bytes == old(bytes) + Put(x)
    {
      if x < 0x40 {
        PutSlice(BigEndian(1, x));
      } else if x < 0x4000 {
        PutSlice(BigEndian(2, 0x4000 + x));
      } else if x < 0x4000_0000 {
        PutSlice(BigEndian(4, 0x8000_0000 + x));
      } else {
        PutSlice(BigEndian(8, 0xC000_0000_0000_0000 + x));
      }
    }

    /** Writes each in turn. */
    method PutVarints(xs: seq<VarInt>)
      requires SizeAll(xs) <= Remaining()
      modifies this
      ensures bytes == old(bytes) + PutAll(xs)
    {
      for i := 0 to |xs|
        invariant bytes == old(bytes) + PutAll(xs[..i])
        invariant |PutAll(xs[..i])| + SizeAll(xs[i..]) == SizeAll(xs)
      {
        PutAllConcat(xs[..i], [xs[i]]);
        assert xs[..i + 1] == xs[..i] + [xs[i]] && xs[i..][1..] == xs[i + 1..];
        PutVarint(xs[i]);
      }
      assert xs[..|xs|] == xs;
    }
  }
}
