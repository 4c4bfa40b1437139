/** The NewReno algorithm (`qcongestion/src/algorithm/new_reno.rs`) as a function of its callbacks. */
module NewRenoSpec {
  import opened Prelude
  import opened AckFrames
  import opened PacketSpec

  const INFINITE_SSTHRESH: nat := 0xFFFF_FFFF_FFFF_FFFF

  datatype Reno = Reno(bytes: nat, cwnd: nat, ssthresh: nat, recovery: Option<int>, ce: seq<nat>)

  /** The datagram size is a 16-bit number, and so are the products it is compared by. */
  function Wrapped(n: nat): nat { n % 0x1_0000 }

  function New(mds: nat): Reno {
    Reno(0, Min(Wrapped(mds * 10), Max(Wrapped(mds * 2), 14600)), INFINITE_SSTHRESH, None, [0, 0, 0])
  }

  /** A reduction by one datagram does not underflow, and no window is zero. */
  predicate Floor(r: Reno, mds: nat) { 0 < mds <= r.cwnd }

  /** The first window is at least one datagram. */
  predicate StartsAtFloor(mds: nat) { Floor(New(mds), mds) }

  predicate InRecovery(r: Reno, timeSent: int) { r.recovery.Some? && timeSent <= r.recovery.value }

  function Monus(a: nat, b: nat): nat { if a < b then 0 else a - b }

  function Weight(p: SentPacket): nat { if p.countForCc then p.sentBytes else 0 }

  /** Congestion avoidance: one datagram for each window acknowledged. */
  function Growth(mds: nat, bytes: nat, cwnd: nat): nat
    requires 0 < cwnd
  {
    mds * bytes / cwnd
  }

  /** Absent when the division by the window fails. */
  function OnAcked(r: Reno, mds: nat, p: SentPacket): Option<Reno> {
    if !p.countForCc then Some(r)
    else
      var r1 := if p.state == Inflight then r.(bytes := Monus(r.bytes, p.sentBytes)) else r;
      if InRecovery(r, p.timeSent) then Some(r1)
      else if r.cwnd < r.ssthresh then Some(r1.(cwnd := r.cwnd + p.sentBytes))
      else if r.cwnd == 0 then None
      else Some(r1.(cwnd := r.cwnd + Growth(mds, p.sentBytes, r.cwnd)))
  }

  /** Absent when the unchecked subtraction underflows. */
  function CongestionEvent(r: Reno, mds: nat, timeSent: int, now: int): Option<Reno> {
    if InRecovery(r, timeSent) then Some(r)
    else if r.cwnd < mds then None
    else Some(r.(recovery := Some(now), ssthresh := r.cwnd - mds, cwnd := Max(r.cwnd - mds, 2 * mds)))
  }

  /** Saturating removal of the lost packets, one by one. */
  function Shed(bytes: nat, ps: seq<SentPacket>): nat {
    if ps == [] then bytes else Monus(Shed(bytes, ps[..|ps| - 1]), Weight(ps[|ps| - 1]))
  }

  function LastLoss(ps: seq<SentPacket>): Option<int> {
    if ps == [] then None
    else
      var before, p := LastLoss(ps[..|ps| - 1]), ps[|ps| - 1];
      if !p.countForCc then before
      else if before.Some? then Some(Max(before.value, p.timeSent)) else Some(p.timeSent)
  }

  function OnLost(r: Reno, mds: nat, ps: seq<SentPacket>, persistent: bool, now: int): Option<Reno> {
    var r1 := r.(bytes := Shed(r.bytes, ps));
    var r2 := if LastLoss(ps).Some? then CongestionEvent(r1, mds, LastLoss(ps).value, now) else Some(r1);
    if r2.None? || !persistent then r2
    else Some(r2.value.(ssthresh := r2.value.cwnd / 2, cwnd := Max(r2.value.cwnd / 2, 2 * mds), recovery := None))
  }

  /** Plain removal of discarded packets: absent when a subtraction would underflow. */
  function Taken(bytes: nat, ps: seq<SentPacket>): Option<nat> {
    if ps == [] then Some(bytes)
    else
      var before, p := Taken(bytes, ps[..|ps| - 1]), ps[|ps| - 1];
      var w := if p.state != Retransmitted then Weight(p) else 0;
      if before.Some? && w <= before.value then Some(before.value - w) else None
  }

  function OnEcn(r: Reno, mds: nat, space: nat, ce: nat, timeSent: int, now: int): Option<Reno> {
    if space < |r.ce| && r.ce[space] < ce
    then CongestionEvent(r.(ce := r.ce[space := ce]), mds, timeSent, now) else Some(r)
  }

  /** One callback; absent when an unchecked operation of the code would fail. */
  function Apply(r: Reno, mds: nat, call: Callback): Option<Reno> {
    match call
    case PacketSent(p) => Some(r.(bytes := r.bytes + p.sentBytes))
    case PacketAcked(p) => OnAcked(r, mds, p)
    case PacketsLost(ps, persistent, now) => OnLost(r, mds, ps, persistent, now)
    case Removed(ps) => if Taken(r.bytes, ps).Some? then Some(r.(bytes := Taken(r.bytes, ps).value)) else None
    case Ecn(space, ce, timeSent, now) => OnEcn(r, mds, space, ce, timeSent, now)
  }

  function ApplyAll(r: Reno, mds: nat, calls: seq<Callback>): Option<Reno> {
    if calls == [] then Some(r)
    else
      var before := ApplyAll(r, mds, calls[..|calls| - 1]);
      if before.Some? then Apply(before.value, mds, calls[|calls| - 1]) else None
  }

  lemma {:induction false} ApplyAllConcat(r: Reno, mds: nat, a: seq<Callback>, b: seq<Callback>)
    requires ApplyAll(r, mds, a).Some?
    ensures ApplyAll(r, mds, a + b) == ApplyAll(ApplyAll(r, mds, a).value, mds, b)
  {
    if b == [] {
      assert a + b == a;
    } else {
      ApplyAllConcat(r, mds, a, b[..|b| - 1]);
      assert (a + b)[..|a + b| - 1] == a + b[..|b| - 1];
    }
  }

  // ---------------------------------------------------------------- the window

  /** From a window of one datagram on, only a removal can fail, and the window stays there. */
  lemma FloorKept(r: Reno, mds: nat, call: Callback)
    requires Floor(r, mds)
    ensures call.Removed? || Apply(r, mds, call).Some?
    ensures Apply(r, mds, call).Some? ==> Floor(Apply(r, mds, call).value, mds)
    ensures Apply(r, mds, call).Some? && 2 * mds <= r.cwnd ==> 2 * mds <= Apply(r, mds, call).value.cwnd
  {
  }

  lemma {:induction false} FloorKeptByAll(r: Reno, mds: nat, calls: seq<Callback>)
    requires Floor(r, mds)
    ensures ApplyAll(r, mds, calls).Some? ==> Floor(ApplyAll(r, mds, calls).value, mds)
    ensures ApplyAll(r, mds, calls).Some? && 2 * mds <= r.cwnd ==> 2 * mds <= ApplyAll(r, mds, calls).value.cwnd
  {
    if calls != [] {
      FloorKeptByAll(r, mds, calls[..|calls| - 1]);
      var before := ApplyAll(r, mds, calls[..|calls| - 1]);
      if before.Some? { FloorKept(before.value, mds, calls[|calls| - 1]); }
    }
  }

  lemma GrowthBound(mds: nat, bytes: nat, cwnd: nat)
    requires mds <= cwnd && 0 < cwnd
    ensures Growth(mds, bytes, cwnd) <= bytes
  {
    var g := mds * bytes / cwnd;
    assert g * cwnd <= mds * bytes;
    assert mds * bytes <= cwnd * bytes;
    assert bytes < g ==> (bytes + 1) * cwnd <= g * cwnd;
  }

  /** Sent outside a recovery period: there is none, or it began before. */
  predicate Outside(r: Reno, timeSent: int) { r.recovery == None || r.recovery.value < timeSent }

  /** The quotient, stated as the largest multiple of the window that fits. */
  lemma GrowthIsQuotient(mds: nat, bytes: nat, cwnd: nat)
    requires 0 < cwnd
    ensures var g := Growth(mds, bytes, cwnd); g * cwnd <= mds * bytes < (g + 1) * cwnd
  {
  }

  /**
   * An acknowledgement never shrinks the window. It leaves it alone for packets that do not count
   * or were sent before the recovery period began; it adds the packet's bytes below the threshold,
   * and above it, rounded down, the part of a datagram that the packet's bytes are of the window.
   */
  lemma AckGrowsWindow(r: Reno, mds: nat, p: SentPacket)
    requires Floor(r, mds)
    ensures OnAcked(r, mds, p).Some?
    ensures var r' := OnAcked(r, mds, p).value; var grown := r'.cwnd - r.cwnd;
            && 0 <= grown <= Weight(p)
            && r'.ssthresh == r.ssthresh && r'.recovery == r.recovery && r'.ce == r.ce
            && (!p.countForCc || !Outside(r, p.timeSent) ==> grown == 0)
            && (p.countForCc && Outside(r, p.timeSent) && r.cwnd < r.ssthresh ==> grown == p.sentBytes)
            && (p.countForCc && Outside(r, p.timeSent) && r.ssthresh <= r.cwnd ==>
                  grown * r.cwnd <= mds * p.sentBytes < (grown + 1) * r.cwnd)
            && r'.bytes == if p.state == Inflight then Monus(r.bytes, Weight(p)) else r.bytes
  {
    GrowthBound(mds, p.sentBytes, r.cwnd);
    GrowthIsQuotient(mds, p.sentBytes, r.cwnd);
  }

  function Counted(ps: seq<SentPacket>): nat {
    if ps == [] then 0 else Counted(ps[..|ps| - 1]) + Weight(ps[|ps| - 1])
  }

  lemma ScaledGrowth(grown: nat, cwnd: nat, larger: nat, product: nat)
    requires cwnd <= larger && grown * larger <= product
    ensures grown * cwnd <= product
  {
  }

  lemma GrowthAdds(c0: nat, c1: nat, c2: nat, mds: nat, before: nat, bytes: nat)
    requires c0 <= c1 <= c2 && (c1 - c0) * c0 <= mds * before && (c2 - c1) * c1 <= mds * bytes
    ensures (c2 - c0) * c0 <= mds * (before + bytes)
  {
    ScaledGrowth(c2 - c1, c0, c1, mds * bytes);
    assert (c2 - c0) * c0 == (c2 - c1) * c0 + (c1 - c0) * c0;
    assert mds * (before + bytes) == mds * before + mds * bytes;
  }

  lemma GrowthOfOne(r: Reno, mds: nat, p: SentPacket)
    requires Floor(r, mds) && r.ssthresh <= r.cwnd
    ensures OnAcked(r, mds, p).Some?
    ensures var r' := OnAcked(r, mds, p).value;
            Floor(r', mds) && r'.ssthresh == r.ssthresh && r.cwnd <= r'.cwnd
            && (r'.cwnd - r.cwnd) * r.cwnd <= mds * Weight(p)
  {
    AckGrowsWindow(r, mds, p);
    if !p.countForCc || !Outside(r, p.timeSent) { assert 0 * r.cwnd == 0; }
  }

  /** Above the threshold the window grows by at most the datagrams whose windows were acknowledged. */
  lemma {:induction false} GrowthOverAcks(r: Reno, mds: nat, ps: seq<SentPacket>)
    requires Floor(r, mds) && r.ssthresh <= r.cwnd
    ensures ApplyAll(r, mds, AckedCalls(ps)).Some?
    ensures var r' := ApplyAll(r, mds, AckedCalls(ps)).value;
            && Floor(r', mds) && r'.ssthresh == r.ssthresh && r.cwnd <= r'.cwnd
            && (r'.cwnd - r.cwnd) * r.cwnd <= mds * Counted(ps)
  {
    if ps == [] {
      assert 0 * r.cwnd == 0 == mds * 0;
    } else {
      var front, last := ps[..|ps| - 1], ps[|ps| - 1];
      GrowthOverAcks(r, mds, front);
      assert AckedCalls(ps)[..|ps| - 1] == AckedCalls(front);
      var r1 := ApplyAll(r, mds, AckedCalls(front)).value;
      GrowthOfOne(r1, mds, last);
      GrowthAdds(r.cwnd, r1.cwnd, OnAcked(r1, mds, last).value.cwnd, mds, Counted(front), Weight(last));
    }
  }

  lemma Times(a: nat, b: nat, c: nat)
    requires a <= b
    ensures a * c <= b * c
  {
  }

  lemma AtMostOne(grown: nat, cwnd: nat, mds: nat, bytes: nat)
    requires 0 < cwnd && bytes <= cwnd && grown * cwnd <= mds * bytes
    ensures grown <= mds
  {
    Times(bytes, cwnd, mds);
    if mds + 1 <= grown { Times(mds + 1, grown, cwnd); }
  }

  /** So acknowledging at most a whole window, in however many packets, adds at most one datagram. */
  lemma OneDatagramPerWindow(r: Reno, mds: nat, ps: seq<SentPacket>)
    requires Floor(r, mds) && r.ssthresh <= r.cwnd && Counted(ps) <= r.cwnd
    ensures ApplyAll(r, mds, AckedCalls(ps)).Some?
    ensures r.cwnd <= ApplyAll(r, mds, AckedCalls(ps)).value.cwnd <= r.cwnd + mds
  {
    GrowthOverAcks(r, mds, ps);
    AtMostOne(ApplyAll(r, mds, AckedCalls(ps)).value.cwnd - r.cwnd, r.cwnd, mds, Counted(ps));
  }

  /** A congestion event outside recovery takes one datagram off, down to two, and starts a period. */
  predicate Reduced(r: Reno, r': Reno, mds: nat, now: int) {
    && r'.recovery == Some(now)
    && r'.ssthresh + mds == r.cwnd
    && (if 3 * mds <= r.cwnd then r'.cwnd + mds == r.cwnd else r'.cwnd == 2 * mds)
  }

  /**
   * Losses that count and were sent after the recovery period began cause exactly one reduction,
   * however many they are; other losses move the window only if they are persistent, which halves
   * it, down to two datagrams, and ends the period.
   */
  lemma LossShrinksWindow(r: Reno, mds: nat, ps: seq<SentPacket>, persistent: bool, now: int)
    requires Floor(r, mds)
    ensures OnLost(r, mds, ps, persistent, now).Some?
    ensures var r' := OnLost(r, mds, ps, persistent, now).value;
            var news := exists i :: 0 <= i < |ps| && ps[i].countForCc && Outside(r, ps[i].timeSent);
            && (!persistent && news ==> Reduced(r, r', mds, now))
            && (!persistent && !news ==> r'.cwnd == r.cwnd && r'.ssthresh == r.ssthresh && r'.recovery == r.recovery)
            && (persistent ==> r'.recovery == None && r'.cwnd == Max(r'.ssthresh, 2 * mds))
            && (persistent ==> r'.ssthresh == (if news then Max(r.cwnd - mds, 2 * mds) else r.cwnd) / 2)
            && (2 * mds <= r.cwnd ==> 2 * mds <= r'.cwnd <= r.cwnd)
            && r'.ce == r.ce && r'.bytes == Shed(r.bytes, ps)
  {
    LastLossIsLatest(ps);
  }

  /** The time compared is that of the latest lost packet that counts. */
  lemma {:induction false} LastLossIsLatest(ps: seq<SentPacket>)
    ensures LastLoss(ps).None? <==> forall i :: 0 <= i < |ps| ==> !ps[i].countForCc
    ensures LastLoss(ps).Some? ==>
              && (exists i :: 0 <= i < |ps| && ps[i].countForCc && ps[i].timeSent == LastLoss(ps).value)
              && (forall i :: 0 <= i < |ps| && ps[i].countForCc ==> ps[i].timeSent <= LastLoss(ps).value)
  {
    if ps != [] {
      var front, last := ps[..|ps| - 1], ps[|ps| - 1];
      LastLossIsLatest(front);
      if last.countForCc {
        assert ps[|front|] == last;
      }
      if LastLoss(front).Some? {
        var i :| 0 <= i < |front| && front[i].countForCc && front[i].timeSent == LastLoss(front).value;
        assert ps[i] == front[i];
      }
    }
  }

  /** A larger ECN count is remembered and acts like a loss of the packet named; any other is ignored. */
  lemma EcnShrinksWindow(r: Reno, mds: nat, space: nat, ce: nat, timeSent: int, now: int)
    requires Floor(r, mds) && space < |r.ce|
    ensures OnEcn(r, mds, space, ce, timeSent, now).Some?
    ensures var r' := OnEcn(r, mds, space, ce, timeSent, now).value;
            && r'.ce == r.ce[space := Max(r.ce[space], ce)] && r'.bytes == r.bytes
            && (r.ce[space] < ce && Outside(r, timeSent) ==> Reduced(r, r', mds, now))
            && (r.ce[space] >= ce || !Outside(r, timeSent) ==>
                  r'.cwnd == r.cwnd && r'.ssthresh == r.ssthresh && r'.recovery == r.recovery)
  {
  }

  /**
   * The documented reduction halves the threshold and takes the larger of that and two datagrams as
   * the window. The code takes one datagram off: the threshold is the same exactly for a window of
   * two datagrams, give or take the rounding, the window exactly up to three datagrams.
   */
  lemma HalvesIff(r: Reno, mds: nat, timeSent: int, now: int)
    requires Floor(r, mds) && Outside(r, timeSent)
    ensures CongestionEvent(r, mds, timeSent, now).Some?
    ensures CongestionEvent(r, mds, timeSent, now).value.ssthresh == r.cwnd / 2
            <==> r.cwnd == 2 * mds || r.cwnd == 2 * mds - 1
    ensures CongestionEvent(r, mds, timeSent, now).value.cwnd == Max(r.cwnd / 2, 2 * mds) <==> r.cwnd <= 3 * mds
  {
  }

  /** Ten datagrams of 1200 bytes are reduced to nine. */
  lemma HalvingFails()
    ensures New(1200).cwnd == 12000
    ensures CongestionEvent(New(1200), 1200, 0, 0).Some? && CongestionEvent(New(1200), 1200, 0, 0).value.cwnd == 10800
  {
  }

  /** The documented first window. */
  function DocumentedWindow(mds: nat): nat { Min(mds * 10, Max(mds * 2, 14600)) }

  /**
   * The first window is the documented one exactly when twice the size does not wrap around and
   * ten times the size either does not, or still lies at or above the other bound.
   */
  lemma FirstWindowIff(mds: nat)
    requires 0 < mds < 0x1_0000
    ensures New(mds).cwnd == DocumentedWindow(mds) <==>
            mds < 0x8000 && (mds * 10 < 0x1_0000 || Max(mds * 2, 14600) <= mds * 10 % 0x1_0000)
  {
  }

  /** Both ways to miss it: a window of four bytes, and one that merely falls short. */
  lemma FirstWindowFails()
    ensures New(6554).cwnd == 4 && DocumentedWindow(6554) == 14600
    ensures New(8100).cwnd == 15464 && DocumentedWindow(8100) == 16200
  {
  }

  /** The first window, wrap-around included, is at least one datagram exactly for these sizes. */
  lemma StartsAtFloorIff(mds: nat)
    requires 0 < mds < 0x1_0000
    ensures StartsAtFloor(mds) <==> mds <= mds * 10 % 0x1_0000 && mds < 0x8000
    ensures mds * 10 < 0x1_0000 ==> StartsAtFloor(mds) && 2 * mds <= New(mds).cwnd
  {
  }

  // ---------------------------------------------------------------- bytes in flight

  /** The bytes of the packets in flight that count for congestion control. */
  function Flying(sent: seq<SentPacket>): nat {
    if sent == [] then 0
    else Flying(sent[..|sent| - 1]) + (if sent[|sent| - 1].state == Inflight then Weight(sent[|sent| - 1]) else 0)
  }

  lemma {:induction false} FlyingConcat(a: seq<SentPacket>, b: seq<SentPacket>)
    ensures Flying(a + b) == Flying(a) + Flying(b)
  {
    if b == [] {
      assert a + b == a;
    } else {
      FlyingConcat(a, b[..|b| - 1]);
      assert (a + b)[..|a + b| - 1] == a + b[..|b| - 1];
    }
  }

  lemma {:induction false} FlyingSplitsOnAck(sent: seq<SentPacket>, rs: seq<Range>)
    ensures Flying(sent) == Flying(Marked(sent, rs)) + Flying(Newly(sent, rs))
  {
    if sent != [] {
      var front, last := sent[..|sent| - 1], sent[|sent| - 1];
      FlyingSplitsOnAck(front, rs);
      assert Marked(sent, rs)[..|sent| - 1] == Marked(front, rs);
      FlyingConcat(if IsNew(last, rs) then [last] else [], Newly(front, rs));
      assert [last][..0] == [];
    }
  }

  lemma {:induction false} FlyingDropDone(sent: seq<SentPacket>)
    ensures Flying(DropDone(sent)) == Flying(sent)
  {
    if sent != [] && sent[0].state != Inflight {
      FlyingDropDone(sent[1..]);
      FlyingConcat(sent[..1], sent[1..]);
      assert sent[..1] + sent[1..] == sent;
      assert sent[..1][..0] == [];
    }
  }

  lemma FlyingPrefix(sent: seq<SentPacket>, n: nat)
    requires 0 < n <= |sent|
    ensures Flying(sent[..n])
         == Flying(sent[..n - 1]) + (if sent[n - 1].state == Inflight then Weight(sent[n - 1]) else 0)
  {
    assert sent[..n][..n - 1] == sent[..n - 1];
  }

  lemma CountedSnoc(ps: seq<SentPacket>, p: SentPacket)
    ensures Counted(ps + [p]) == Counted(ps) + Weight(p)
  {
    assert (ps + [p])[..|ps|] == ps;
  }

  lemma {:induction false} FlyingSplitsOnLoss(sent: seq<SentPacket>, la: nat, c: Clock, n: nat)
    requires n <= |sent|
    ensures Flying(sent[..n]) == Flying(LostMarkedUpTo(sent, la, c, |sent|)[..n]) + Counted(LostUpTo(sent, la, c, n))
  {
    if n > 0 {
      FlyingSplitsOnLoss(sent, la, c, n - 1);
      FlyingPrefix(sent, n);
      FlyingPrefix(LostMarkedUpTo(sent, la, c, |sent|), n);
      CountedSnoc(LostUpTo(sent, la, c, n - 1), sent[n - 1].(state := Retransmitted));
    }
  }

  // ---------------------------------------------------------------- no subtraction saturates or underflows

  lemma {:induction false} AckedBytes(r: Reno, mds: nat, newly: seq<SentPacket>)
    requires Floor(r, mds) && Flying(newly) <= r.bytes
    ensures ApplyAll(r, mds, AckedCalls(newly)).Some?
    ensures ApplyAll(r, mds, AckedCalls(newly)).value.bytes == r.bytes - Flying(newly)
  {
    if newly != [] {
      AckedBytes(r, mds, newly[..|newly| - 1]);
      FloorKeptByAll(r, mds, AckedCalls(newly[..|newly| - 1]));
      assert AckedCalls(newly)[..|newly| - 1] == AckedCalls(newly[..|newly| - 1]);
    }
  }

  lemma {:induction false} ShedExact(bytes: nat, ps: seq<SentPacket>)
    requires Counted(ps) <= bytes
    ensures Shed(bytes, ps) == bytes - Counted(ps)
  {
    if ps != [] { ShedExact(bytes, ps[..|ps| - 1]); }
  }

  lemma {:induction false} TakenExact(bytes: nat, sent: seq<SentPacket>)
    requires Flying(sent) <= bytes
    ensures Taken(bytes, InflightOnly(sent)) == Some(bytes - Flying(sent))
  {
    if sent != [] {
      var front, last := sent[..|sent| - 1], sent[|sent| - 1];
      TakenExact(bytes, front);
      if last.state == Inflight {
        assert InflightOnly(sent)[..|InflightOnly(sent)| - 1] == InflightOnly(front);
      } else {
        assert InflightOnly(sent) == InflightOnly(front);
      }
    }
  }

  /** With `others` bytes in flight elsewhere, an acknowledgement leaves the sum exact. */
  lemma AckKeepsBytes(s: Space, rs: seq<Range>, r: Reno, mds: nat, others: nat)
    requires Floor(r, mds) && r.bytes == others + Flying(s.sent)
    ensures ApplyAll(r, mds, AckCalls(s, rs)).Some?
    ensures ApplyAll(r, mds, AckCalls(s, rs)).value.bytes == others + Flying(OnAck(s, rs).sent)
  {
    FlyingSplitsOnAck(s.sent, rs);
    FlyingDropDone(Marked(s.sent, rs));
    AckedBytes(r, mds, Newly(s.sent, rs));
  }

  lemma SingleCall(r: Reno, mds: nat, call: Callback)
    ensures ApplyAll(r, mds, [call]) == Apply(r, mds, call)
  {
    assert [call][..0] == [];
  }

  lemma DetectKeepsBytes(s: Space, c: Clock, r: Reno, mds: nat, others: nat)
    requires Floor(r, mds) && r.bytes == others + Flying(s.sent)
    ensures ApplyAll(r, mds, DetectCalls(s, c)).Some?
    ensures ApplyAll(r, mds, DetectCalls(s, c)).value.bytes == others + Flying(Detect(s, c).sent)
  {
    var la := LossBound(s);
    var lost := Lost(s.sent, la, c);
    FlyingSplitsOnLoss(s.sent, la, c, |s.sent|);
    assert s.sent[..|s.sent|] == s.sent;
    assert Detect(s, c).sent[..|s.sent|] == Detect(s, c).sent;
    ShedExact(r.bytes, lost);
    if lost != [] { SingleCall(r, mds, DetectCalls(s, c)[0]); }
  }

  lemma DiscardKeepsBytes(s: Space, r: Reno, mds: nat, others: nat)
    requires r.bytes == others + Flying(s.sent)
    ensures ApplyAll(r, mds, DiscardCalls(s)).Some?
    ensures ApplyAll(r, mds, DiscardCalls(s)).value.bytes == others
  {
    TakenExact(r.bytes, s.sent);
    SingleCall(r, mds, DiscardCalls(s)[0]);
  }

  lemma SendKeepsBytes(sent: seq<SentPacket>, p: SentPacket, r: Reno, mds: nat, others: nat)
    requires r.bytes == others + Flying(sent) && p.state == Inflight
    ensures var calls := if p.countForCc then [PacketSent(p)] else [];
            ApplyAll(r, mds, calls).Some? && ApplyAll(r, mds, calls).value.bytes == others + Flying(sent + [p])
  {
    SingleCall(r, mds, PacketSent(p));
    assert (sent + [p])[..|sent|] == sent;
  }

  // ---------------------------------------------------------------- one reduction per recovery period

  /** The callback is about packets sent no later than `t`, and reports no persistent loss. */
  predicate SentBy(call: Callback, t: int) {
    match call
    case PacketSent(_) => true
    case PacketAcked(p) => p.timeSent <= t
    case PacketsLost(ps, persistent, _) => !persistent && forall i :: 0 <= i < |ps| ==> ps[i].timeSent <= t
    case Removed(_) => true
    case Ecn(_, _, timeSent, _) => timeSent <= t
  }

  lemma {:induction false} LastLossBound(ps: seq<SentPacket>, t: int)
    requires forall i :: 0 <= i < |ps| ==> ps[i].timeSent <= t
    ensures LastLoss(ps).Some? ==> LastLoss(ps).value <= t
  {
    if ps != [] { LastLossBound(ps[..|ps| - 1], t); }
  }

  /**
   * During a recovery period no callback about packets sent before it began moves the window:
   * however many of them are lost, the window is reduced once.
   */
  lemma {:induction false} OneReductionPerRecovery(r: Reno, mds: nat, calls: seq<Callback>)
    requires Floor(r, mds) && r.recovery.Some?
    requires forall i :: 0 <= i < |calls| ==> SentBy(calls[i], r.recovery.value)
    ensures var r' := ApplyAll(r, mds, calls);
            r'.Some? ==> r'.value.cwnd == r.cwnd && r'.value.ssthresh == r.ssthresh && r'.value.recovery == r.recovery
  {
    if calls != [] {
      OneReductionPerRecovery(r, mds, calls[..|calls| - 1]);
      var last := calls[|calls| - 1];
      if last.PacketsLost? { LastLossBound(last.packets, r.recovery.value); }
    }
  }
}
