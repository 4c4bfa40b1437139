/**
 * One packet number space of loss recovery (`qcongestion/src/packets.rs`), on values:
 * the queue of sent packets, acknowledgement, loss detection, and what the congestion
 * algorithm is told (section 6 and Appendix A of RFC 9002).
 */
module PacketSpec {
  import opened Prelude
  import opened AckFrames

  datatype State = Inflight | Acked | Retransmitted

  datatype SentPacket = SentPacket(
    pn: nat, timeSent: int, ackEliciting: bool, countForCc: bool, sentBytes: nat, state: State)

  datatype Space = Space(
    largestAcked: Option<nat>, lastElicit: Option<int>, lossTime: Option<int>, sent: seq<SentPacket>)

  const EMPTY := Space(None, None, None, [])

  /** Packet numbers only grow, so the queue is sorted. */
  predicate Sorted(sent: seq<SentPacket>) {
    forall i, j :: 0 <= i < j < |sent| ==> sent[i].pn < sent[j].pn
  }

  // ---------------------------------------------------------------- acknowledgement

  predicate InRanges(rs: seq<Range>, pn: nat) {
    exists i :: 0 <= i < |rs| && rs[i].lo <= pn <= rs[i].hi
  }

  /** The packet is acknowledged now and was not before. */
  predicate IsNew(p: SentPacket, rs: seq<Range>) { p.state != Acked && InRanges(rs, p.pn) }

  /** The newly acknowledged packets numbered `from` or more, as they were, largest first. */
  function NewlyFrom(sent: seq<SentPacket>, rs: seq<Range>, from: int): seq<SentPacket> {
    if sent == [] then []
    else
      var last := sent[|sent| - 1];
      (if from <= last.pn && IsNew(last, rs) then [last] else []) + NewlyFrom(sent[..|sent| - 1], rs, from)
  }

  function Newly(sent: seq<SentPacket>, rs: seq<Range>): seq<SentPacket> { NewlyFrom(sent, rs, 0) }

  /** The queue with those packets marked. */
  function MarkedFrom(sent: seq<SentPacket>, rs: seq<Range>, from: int): (r: seq<SentPacket>)
    ensures |r| == |sent|
    ensures forall i :: 0 <= i < |sent| ==>
              r[i] == if from <= sent[i].pn && IsNew(sent[i], rs) then sent[i].(state := Acked) else sent[i]
  {
    seq(|sent|, i requires 0 <= i < |sent| =>
      if from <= sent[i].pn && IsNew(sent[i], rs) then sent[i].(state := Acked) else sent[i])
  }

  function Marked(sent: seq<SentPacket>, rs: seq<Range>): seq<SentPacket> { MarkedFrom(sent, rs, 0) }

  /** Drops finished packets from the front. */
  function DropDone(sent: seq<SentPacket>): seq<SentPacket> {
    if sent == [] || sent[0].state == Inflight then sent else DropDone(sent[1..])
  }

  datatype NewlyAcked = NewlyAcked(includeAckEliciting: bool, largest: nat, timeSent: int)

  predicate AnyEliciting(ps: seq<SentPacket>) { exists i :: 0 <= i < |ps| && ps[i].ackEliciting }

  function AckResult(newly: seq<SentPacket>): Option<NewlyAcked> {
    if newly == [] then None else Some(NewlyAcked(AnyEliciting(newly), newly[0].pn, newly[0].timeSent))
  }

  function OnAck(s: Space, rs: seq<Range>): Space { s.(sent := DropDone(Marked(s.sent, rs))) }

  function UpdateLargest(s: Space, pn: nat): Space {
    s.(largestAcked := Some(if s.largestAcked.Some? && pn < s.largestAcked.value then s.largestAcked.value else pn))
  }

  // ---------------------------------------------------------------- loss detection

  datatype Clock = Clock(now: int, lossDelay: nat, threshold: nat)

  /** How many tracked packets have numbers up to `la`. */
  function CountUpTo(sent: seq<SentPacket>, la: nat): (n: nat)
    ensures n <= |sent|
    ensures forall i :: 0 <= i < n ==> sent[i].pn <= la
    ensures n < |sent| ==> la < sent[n].pn
  {
    if sent == [] || la < sent[0].pn then 0 else 1 + CountUpTo(sent[1..], la)
  }

  /** Without any acknowledgement the code compares with packet number zero. */
  function LossBound(s: Space): nat { if s.largestAcked.Some? then s.largestAcked.value else 0 }

  predicate IsSuspect(sent: seq<SentPacket>, i: nat, la: nat) {
    i < |sent| && sent[i].pn <= la && sent[i].state == Inflight
  }

  /** Sent too long ago, or enough later tracked packets up to the largest acknowledged one. */
  predicate IsLost(sent: seq<SentPacket>, i: nat, la: nat, c: Clock) {
    && IsSuspect(sent, i, la)
    && (sent[i].timeSent < c.now - c.lossDelay || CountUpTo(sent, la) - 1 - i >= c.threshold)
  }

  predicate Survives(sent: seq<SentPacket>, i: nat, la: nat, c: Clock) {
    IsSuspect(sent, i, la) && !IsLost(sent, i, la, c)
  }

  /** The packets among the first `n` that are lost, in order. */
  function LostUpTo(sent: seq<SentPacket>, la: nat, c: Clock, n: nat): seq<SentPacket>
    requires n <= |sent|
  {
    if n == 0 then []
    else
      var before := LostUpTo(sent, la, c, n - 1);
      if IsLost(sent, n - 1, la, c) then before + [sent[n - 1].(state := Retransmitted)] else before
  }

  function Lost(sent: seq<SentPacket>, la: nat, c: Clock): seq<SentPacket> { LostUpTo(sent, la, c, |sent|) }

  function Earlier(a: Option<int>, t: int): Option<int> {
    if a.Some? && a.value <= t then a else Some(t)
  }

  /** The earliest deadline among the suspects that survive. */
  function DeadlineUpTo(sent: seq<SentPacket>, la: nat, c: Clock, n: nat): Option<int>
    requires n <= |sent|
  {
    if n == 0 then None
    else if Survives(sent, n - 1, la, c) then
      Earlier(DeadlineUpTo(sent, la, c, n - 1), sent[n - 1].timeSent + c.lossDelay)
    else DeadlineUpTo(sent, la, c, n - 1)
  }

  function LostMarkedUpTo(sent: seq<SentPacket>, la: nat, c: Clock, n: nat): (r: seq<SentPacket>)
    ensures |r| == |sent|
    ensures forall i :: 0 <= i < |sent| ==>
              r[i] == if i < n && IsLost(sent, i, la, c) then sent[i].(state := Retransmitted) else sent[i]
  {
    seq(|sent|, i requires 0 <= i < |sent| =>
      if i < n && IsLost(sent, i, la, c) then sent[i].(state := Retransmitted) else sent[i])
  }

  function Detect(s: Space, c: Clock): Space {
    var la := LossBound(s);
    s.(sent := LostMarkedUpTo(s.sent, la, c, |s.sent|), lossTime := DeadlineUpTo(s.sent, la, c, |s.sent|))
  }

  /** Three lost packets next to each other in the queue. */
  predicate PersistentLoss(sent: seq<SentPacket>, la: nat, c: Clock) {
    exists i :: 0 <= i < |sent| && IsLost(sent, i, la, c) && IsLost(sent, i + 1, la, c) && IsLost(sent, i + 2, la, c)
  }

  // ---------------------------------------------------------------- the other operations

  function Discard(s: Space): Space { s.(sent := [], lastElicit := None, lossTime := None) }

  function InflightOnly(sent: seq<SentPacket>): seq<SentPacket> {
    if sent == [] then []
    else
      var last := sent[|sent| - 1];
      InflightOnly(sent[..|sent| - 1]) + (if last.state == Inflight then [last] else [])
  }

  predicate NoElicitInFlight(sent: seq<SentPacket>) {
    forall i :: 0 <= i < |sent| ==> !sent[i].ackEliciting || sent[i].state != Inflight
  }

  // ---------------------------------------------------------------- what the congestion algorithm is told

  datatype Callback =
    | PacketSent(packet: SentPacket)
    | PacketAcked(packet: SentPacket)
    | PacketsLost(packets: seq<SentPacket>, persistent: bool, now: int)
    | Removed(packets: seq<SentPacket>)
    | Ecn(space: nat, ce: nat, timeSent: int, now: int)

  function AckedCalls(newly: seq<SentPacket>): (r: seq<Callback>)
    ensures |r| == |newly|
  {
    if newly == [] then [] else AckedCalls(newly[..|newly| - 1]) + [PacketAcked(newly[|newly| - 1])]
  }

  function AckCalls(s: Space, rs: seq<Range>): seq<Callback> { AckedCalls(Newly(s.sent, rs)) }

  function DetectCalls(s: Space, c: Clock): seq<Callback> {
    var la := LossBound(s);
    var lost := Lost(s.sent, la, c);
    if lost == [] then [] else [PacketsLost(lost, PersistentLoss(s.sent, la, c), c.now)]
  }

  function DiscardCalls(s: Space): seq<Callback> { [Removed(InflightOnly(s.sent))] }
}
