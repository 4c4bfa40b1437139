/**
 * DATAGRAM frames (`qbase/src/frame/datagram.rs`, RFC 9221), the queue that packs them
 * (`qunreliable/src/writer.rs`) and the receiver's size check (`qunreliable/src/reader.rs`).
 */
module Datagrams {
  import opened Prelude
  import opened Varint

  datatype DatagramFrame = DatagramFrame(encodeLen: bool, len: VarInt)

  const WITHOUT_LENGTH: VarInt := 0x30
  const WITH_LENGTH: VarInt := 0x31
  const PADDING: byte := 0

  function FrameType(f: DatagramFrame): VarInt { if f.encodeLen then WITH_LENGTH else WITHOUT_LENGTH }

  function FrameSize(f: DatagramFrame): nat { 1 + if f.encodeLen then EncodingSize(f.len) else 0 }

  function Head(f: DatagramFrame): seq<byte> { Put(FrameType(f)) + if f.encodeLen then Put(f.len) else [] }

  // ---------------------------------------------------------------- reading

  datatype Outcome = Frame(frame: DatagramFrame, data: seq<byte>, rest: seq<byte>) | NeedMore | OtherFrame

  function SkipPadding(input: seq<byte>): seq<byte> {
    if input != [] && input[0] == PADDING then SkipPadding(input[1..]) else input
  }

  function ParseBody(withLen: bool, input: seq<byte>): Outcome
    requires |input| <= VARINT_MAX
  {
    if !withLen then Frame(DatagramFrame(false, |input|), input, [])
    else
      match Decode(input)
      case Incomplete => NeedMore
      case Ok(len, rest) =>
        if |rest| < len then NeedMore else Frame(DatagramFrame(true, len), rest[..len], rest[len..])
  }

  /** Reads the first frame after any padding, if it is a DATAGRAM frame. */
  function Parse(input: seq<byte>): Outcome
    requires |input| <= VARINT_MAX
  {
    SkipPaddingShrinks(input);
    match Decode(SkipPadding(input))
    case Incomplete => NeedMore
    case Ok(t, body) =>
      if t == WITHOUT_LENGTH then ParseBody(false, body)
      else if t == WITH_LENGTH then ParseBody(true, body)
      else OtherFrame
  }

  lemma SkipPaddingShrinks(input: seq<byte>)
    ensures |SkipPadding(input)| <= |input|
  {
  }

  // ---------------------------------------------------------------- packing

  function Zeros(n: nat): (r: seq<byte>)
    ensures |r| == n
  {
    seq(n, i => PADDING)
  }

  predicate Loads(d: seq<byte>, free: nat) { |d| < free }

  /** With a length if that fits. */
  predicate ChoosesLength(d: seq<byte>, free: nat)
    requires |d| <= VARINT_MAX
  {
    |d| + FrameSize(DatagramFrame(true, |d|)) <= free
  }

  /** The bytes written for a payload into `free` bytes of a packet. */
  function Packed(d: seq<byte>, free: nat): seq<byte>
    requires |d| <= VARINT_MAX && Loads(d, free)
  {
    if ChoosesLength(d, free) then Head(DatagramFrame(true, |d|)) + d
    else Zeros(free - |d| - 1) + (Head(DatagramFrame(false, |d|)) + d)
  }

  lemma HeadSize(f: DatagramFrame)
    ensures |Head(f)| == FrameSize(f)
  {
  }

  /** What goes on the wire: the type byte says whether a length follows. */
  lemma WireFormat(f: DatagramFrame)
    ensures Head(f) == if f.encodeLen then [0x31] + Put(f.len) else [0x30]
  {
    Varint.WireFormat(FrameType(f), One);
  }

  /** A length is written if and only if it fits; without one the payload is moved to the end of the packet. */
  lemma PackedSize(d: seq<byte>, free: nat)
    requires |d| <= VARINT_MAX && Loads(d, free)
    ensures var whole := 1 + EncodingSize(|d|) + |d|; |Packed(d, free)| == if whole <= free then whole else free
    ensures !ChoosesLength(d, free) ==> |Packed(d, free)| == free
  {
    HeadSize(DatagramFrame(true, |d|));
    HeadSize(DatagramFrame(false, |d|));
  }

  lemma {:induction false} SkipZeros(n: nat, input: seq<byte>)
    ensures SkipPadding(Zeros(n) + input) == SkipPadding(input)
  {
    if n == 0 {
      assert Zeros(0) + input == input;
    } else {
      SkipZeros(n - 1, input);
      assert (Zeros(n) + input)[1..] == Zeros(n - 1) + input;
    }
  }

  lemma HeadStarts(f: DatagramFrame, tail: seq<byte>)
    ensures SkipPadding(Head(f) + tail) == Head(f) + tail
  {
    TypeByte(FrameType(f));
    assert (Head(f) + tail)[0] == Put(FrameType(f))[0];
  }

  lemma TypeByte(t: VarInt)
    requires t == WITH_LENGTH || t == WITHOUT_LENGTH
    ensures |Put(t)| == 1 && Put(t)[0] != PADDING
  {
  }

  lemma ParseWithLength(d: seq<byte>, tail: seq<byte>)
    requires |d| <= VARINT_MAX && |Head(DatagramFrame(true, |d|)) + d + tail| <= VARINT_MAX
    ensures Parse(Head(DatagramFrame(true, |d|)) + d + tail) == Frame(DatagramFrame(true, |d|), d, tail)
  {
    var f := DatagramFrame(true, |d|);
    ConcatAssociative(Head(f), d, tail);
    HeadStarts(f, d + tail);
    ConcatAssociative(Put(WITH_LENGTH), Put(f.len), d + tail);
    DecodePut(WITH_LENGTH, Put(f.len) + (d + tail));
    DecodePut(f.len, d + tail);
    assert (d + tail)[..|d|] == d && (d + tail)[|d|..] == tail;
  }

  lemma ParseWithoutLength(n: nat, d: seq<byte>)
    requires |d| <= VARINT_MAX && |Zeros(n) + (Head(DatagramFrame(false, |d|)) + d)| <= VARINT_MAX
    ensures Parse(Zeros(n) + (Head(DatagramFrame(false, |d|)) + d)) == Frame(DatagramFrame(false, |d|), d, [])
  {
    var f := DatagramFrame(false, |d|);
    SkipZeros(n, Head(f) + d);
    HeadStarts(f, d);
    assert Head(f) == Put(WITHOUT_LENGTH);
    DecodePut(WITHOUT_LENGTH, d);
  }

  /**
   * What was packed, followed by whatever the packet still has room for, reads back as exactly the
   * payload and that rest; the form without length leaves no room.
   */
  lemma PackedReadsBack(d: seq<byte>, free: nat, tail: seq<byte>)
    requires Loads(d, free) && free <= VARINT_MAX && |Packed(d, free) + tail| <= free
    ensures Parse(Packed(d, free) + tail) == Frame(DatagramFrame(ChoosesLength(d, free), |d|), d, tail)
    ensures !ChoosesLength(d, free) ==> tail == []
  {
    PackedSize(d, free);
    if ChoosesLength(d, free) {
      ParseWithLength(d, tail);
    } else {
      assert tail == [] && Packed(d, free) + tail == Packed(d, free);
      ParseWithoutLength(free - |d| - 1, d);
    }
  }

  // ---------------------------------------------------------------- a whole packet

  /** The room left behind a payload. */
  function Left(d: seq<byte>, free: nat): (n: nat)
    requires Loads(d, free) && free <= VARINT_MAX
    ensures n == free - |Packed(d, free)| < free
  {
    PackedSize(d, free);
    PackedIsNotEmpty(d, free);
    free - |Packed(d, free)|
  }

  /** How many payloads of the queue go into one packet. */
  function Loaded(ds: seq<seq<byte>>, free: nat): (n: nat)
    requires free <= VARINT_MAX
    ensures n <= |ds|
  {
    if ds == [] || !Loads(ds[0], free) then 0 else 1 + Loaded(ds[1..], Left(ds[0], free))
  }

  /** The bytes of loading until the queue is empty or the next payload does not fit. */
  function Fill(ds: seq<seq<byte>>, free: nat): (r: seq<byte>)
    requires free <= VARINT_MAX
    ensures |r| <= free
  {
    if ds == [] || !Loads(ds[0], free) then [] else Packed(ds[0], free) + Fill(ds[1..], Left(ds[0], free))
  }

  /** All payloads of a packet that holds DATAGRAM and padding frames only. */
  function ReadAll(input: seq<byte>): seq<seq<byte>>
    requires |input| <= VARINT_MAX
    decreases |input|
  {
    match Parse(input)
    case Frame(_, d, rest) => if |rest| < |input| then [d] + ReadAll(rest) else []
    case _ => []
  }

  lemma ReadAllStep(d: seq<byte>, free: nat, tail: seq<byte>)
    requires Loads(d, free) && free <= VARINT_MAX && |Packed(d, free) + tail| <= free
    ensures ReadAll(Packed(d, free) + tail) == [d] + ReadAll(tail)
  {
    PackedReadsBack(d, free, tail);
    PackedIsNotEmpty(d, free);
  }

  lemma ReadAllNothing()
    ensures ReadAll([]) == []
  {
  }

  lemma TakeCons(ds: seq<seq<byte>>, n: nat)
    requires n < |ds|
    ensures ds[..1 + n] == [ds[0]] + ds[1..][..n]
  {
  }

  lemma FillReadStep(ds: seq<seq<byte>>, free: nat)
    requires free <= VARINT_MAX && ds != [] && Loads(ds[0], free)
    ensures ReadAll(Fill(ds, free)) == [ds[0]] + ReadAll(Fill(ds[1..], Left(ds[0], free)))
  {
    ReadAllStep(ds[0], free, Fill(ds[1..], Left(ds[0], free)));
  }

  /** Reading a packet gives back exactly the payloads loaded into it, in their order. */
  lemma {:induction false} PacketReadsBack(ds: seq<seq<byte>>, free: nat)
    requires free <= VARINT_MAX
    ensures ReadAll(Fill(ds, free)) == ds[..Loaded(ds, free)]
    decreases |ds|
  {
    if ds == [] || !Loads(ds[0], free) {
      ReadAllNothing();
    } else {
      FillReadStep(ds, free);
      PacketReadsBack(ds[1..], Left(ds[0], free));
      TakeCons(ds, Loaded(ds[1..], Left(ds[0], free)));
    }
  }

  lemma PackedIsNotEmpty(d: seq<byte>, free: nat)
    requires |d| <= VARINT_MAX && Loads(d, free)
    ensures 0 < |Packed(d, free)|
  {
    HeadSize(DatagramFrame(true, |d|));
    HeadSize(DatagramFrame(false, |d|));
  }

  // ---------------------------------------------------------------- the size limit

  /** What the sender checks: only the smallest header counts. */
  predicate SendAccepts(d: seq<byte>, max: nat) { 1 + |d| <= max }

  /** What the receiver checks: the header as it arrived counts. */
  predicate RecvAccepts(f: DatagramFrame, data: seq<byte>, max: nat) { FrameSize(f) + |data| <= max }

  /**
   * A payload within the peer's limit on sending breaks that limit on arrival exactly when the
   * packet has room for the length and the length no longer fits the limit.
   */
  lemma RejectedIff(d: seq<byte>, free: nat, max: nat, tail: seq<byte>)
    requires Loads(d, free) && free <= VARINT_MAX && |Packed(d, free) + tail| <= free && SendAccepts(d, max)
    ensures var got := Parse(Packed(d, free) + tail);
            && got.Frame?
            && (!RecvAccepts(got.frame, got.data, max) <==>
                  ChoosesLength(d, free) && max < 1 + EncodingSize(|d|) + |d|)
  {
    PackedReadsBack(d, free, tail);
  }

  /** It does happen: ten bytes under a limit of eleven, in a packet with room to spare. */
  lemma AcceptedPayloadCanBeRejected()
    ensures var d := Zeros(10);
            && SendAccepts(d, 11) && Loads(d, 100) && |Packed(d, 100)| <= VARINT_MAX
            && Parse(Packed(d, 100)).Frame?
            && !RecvAccepts(Parse(Packed(d, 100)).frame, Parse(Packed(d, 100)).data, 11)
  {
    var d := Zeros(10);
    PackedSize(d, 100);
    assert Packed(d, 100) + [] == Packed(d, 100);
    RejectedIff(d, 100, 11, []);
  }

  /** A limit that leaves room for the length keeps every accepted payload acceptable. */
  lemma RoomyLimitIsSafe(d: seq<byte>, free: nat, max: nat, tail: seq<byte>)
    requires Loads(d, free) && free <= VARINT_MAX && |Packed(d, free) + tail| <= free
    requires 1 + EncodingSize(|d|) + |d| <= max
    ensures SendAccepts(d, max)
    ensures var got := Parse(Packed(d, free) + tail); got.Frame? && RecvAccepts(got.frame, got.data, max)
  {
    RejectedIff(d, free, max, tail);
  }

  /** The payload is received from whatever packet it is loaded into, whatever follows it there. */
  ghost predicate ReceivedAnyway(d: seq<byte>, max: nat)
    requires |d| <= VARINT_MAX
  {
    forall free: nat, tail: seq<byte> ::
      Loads(d, free) && free <= VARINT_MAX && |Packed(d, free) + tail| <= free ==>
        var got := Parse(Packed(d, free) + tail); got.Frame? && RecvAccepts(got.frame, got.data, max)
  }

  /**
   * What a caller can check: an accepted payload is received anyway if and only if the limit has
   * room for its length, or no packet has.
   */
  lemma ReceivedAnywayIff(d: seq<byte>, max: nat)
    requires |d| <= VARINT_MAX && SendAccepts(d, max)
    ensures var whole := 1 + EncodingSize(|d|) + |d|; ReceivedAnyway(d, max) <==> whole <= max || VARINT_MAX < whole
  {
    var whole := 1 + EncodingSize(|d|) + |d|;
    forall free: nat, tail: seq<byte> | Loads(d, free) && free <= VARINT_MAX && |Packed(d, free) + tail| <= free
      ensures var got := Parse(Packed(d, free) + tail);
              got.Frame? && (RecvAccepts(got.frame, got.data, max) <==> whole <= max || free < whole)
    {
      RejectedIff(d, free, max, tail);
    }
    if max < whole <= VARINT_MAX {
      PackedSize(d, whole);
      assert |Packed(d, whole) + []| <= whole;
    }
  }

  // ---------------------------------------------------------------- the objects

  datatype Refusal = ConnectionClosed | NothingQueued | NoRoom | TooLarge

  method PutDataFrame(buf: Buf, f: DatagramFrame, data: seq<byte>)
    requires f.len == |data| && FrameSize(f) + |data| <= buf.Remaining()
    modifies buf
    ensures buf.bytes == old(buf.bytes) + (Head(f) + data)
  {
    ghost var start := buf.bytes;
    HeadSize(f);
    buf.PutVarint(FrameType(f));
    if f.encodeLen {
      buf.PutVarint(f.len);
      ConcatAssociative(start, Put(FrameType(f)), Put(f.len));
    }
    assert buf.bytes == start + Head(f);
    buf.PutSlice(data);
    ConcatAssociative(start, Head(f), data);
  }

  class DatagramOutgoing {
    var datagrams: seq<seq<byte>>
    var open: bool

    ghost predicate Valid()
      reads this
    {
      forall i :: 0 <= i < |datagrams| ==> |datagrams[i]| <= VARINT_MAX
    }

    constructor ()
      ensures Valid() && datagrams == [] && open
    {
      datagrams, open := [], true;
    }

    method SendBytes(d: seq<byte>, max: nat) returns (r: Result<(), Refusal>)
      requires Valid() && |d| <= VARINT_MAX
      modifies this`datagrams
      ensures Valid()
      ensures r == if !open then Failure(ConnectionClosed)
                   else if !SendAccepts(d, max) then Failure(TooLarge) else Success(())
      ensures datagrams == if r.Success? then old(datagrams) + [d] else old(datagrams)
    {
      if !open {
        return Failure(ConnectionClosed);
      }
      if 1 + |d| > max {
        return Failure(TooLarge);
      }
      datagrams := datagrams + [d];
      return Success(());
    }

    /** Packs the first payload if at least one header byte fits; otherwise changes nothing. */
    method TryLoadDataInto(packet: Buf) returns (r: Result<(), Refusal>)
      requires Valid() && 0 <= packet.Remaining()
      modifies this`datagrams, packet
      ensures Valid()
      ensures r == if !open then Failure(ConnectionClosed)
                   else if old(datagrams) == [] then Failure(NothingQueued)
                   else if !Loads(old(datagrams)[0], old(packet.Remaining())) then Failure(NoRoom)
                   else Success(())
      ensures r.Failure? ==> datagrams == old(datagrams) && packet.bytes == old(packet.bytes)
      ensures r.Success? ==> old(datagrams) == [old(datagrams)[0]] + datagrams
      ensures r.Success? ==> packet.bytes == old(packet.bytes) + Packed(old(datagrams)[0], old(packet.Remaining()))
      ensures 0 <= packet.Remaining()
    {
      if !open {
        return Failure(ConnectionClosed);
      }
      if datagrams == [] {
        return Failure(NothingQueued);
      }
      var available := packet.Remaining();
      var room := if available < |datagrams[0]| then 0 else available - |datagrams[0]|;
      if room == 0 {
        return Failure(NoRoom);
      }
      var d := datagrams[0];
      datagrams := datagrams[1..];
      PackedSize(d, available);
      if room >= FrameSize(DatagramFrame(true, |d|)) {
        PutDataFrame(packet, DatagramFrame(true, |d|), d);
      } else {
        packet.PutSlice(Zeros(room - 1));
        PutDataFrame(packet, DatagramFrame(false, |d|), d);
        ConcatAssociative(old(packet.bytes), Zeros(room - 1), Head(DatagramFrame(false, |d|)) + d);
      }
      return Success(());
    }

    method OnConnError()
      modifies this
      ensures !open && datagrams == []
    {
      datagrams, open := [], false;
    }
  }

  class DatagramIncoming {
    const localMaxSize: nat
    var rcvd: seq<seq<byte>>
    var open: bool

    constructor (localMaxSize: nat)
      ensures this.localMaxSize == localMaxSize && rcvd == [] && open
    {
      this.localMaxSize := localMaxSize;
      rcvd, open := [], true;
    }

    method RecvDatagram(f: DatagramFrame, data: seq<byte>) returns (r: Result<(), Refusal>)
      modifies this`rcvd
      ensures r == if !open then Failure(ConnectionClosed)
                   else if RecvAccepts(f, data, localMaxSize) then Success(()) else Failure(TooLarge)
      ensures rcvd == if r.Success? then old(rcvd) + [data] else old(rcvd)
    {
      if !open {
        return Failure(ConnectionClosed);
      }
      if FrameSize(f) + |data| > localMaxSize {
        return Failure(TooLarge);
      }
      rcvd := rcvd + [data];
      return Success(());
    }
  }
}
