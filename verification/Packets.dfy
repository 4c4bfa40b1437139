/** The packet space object, with the descending cursor of the acknowledgement walk. */
module Packets {
  import opened Prelude
  import opened AckFrames
  import opened PacketSpec
  import opened PacketProofs
  import opened NewRenos
  import NewRenoSpec

  // ---------------------------------------------------------------- what the walk has done so far

  /** The two results the walk accumulates. */
  datatype Tally = Tally(includeAckEliciting: bool, largest: Option<(nat, int)>)

  function TallyOf(newly: seq<SentPacket>): Tally {
    Tally(AnyEliciting(newly), if newly == [] then None else Some((newly[0].pn, newly[0].timeSent)))
  }

  lemma {:induction false} NewlyStep(sent: seq<SentPacket>, rs: seq<Range>, i: nat)
    requires Sorted(sent) && i < |sent|
    ensures NewlyFrom(sent, rs, sent[i].pn)
         == NewlyFrom(sent, rs, sent[i].pn + 1) + (if IsNew(sent[i], rs) then [sent[i]] else [])
    decreases |sent|
  {
    var front, last := sent[..|sent| - 1], sent[|sent| - 1];
    if i < |front| {
      NewlyStep(front, rs, i);
      ConcatAssociative(if IsNew(last, rs) then [last] else [], NewlyFrom(front, rs, sent[i].pn + 1),
                        if IsNew(sent[i], rs) then [sent[i]] else []);
    } else {
      NewlySkip(front, rs, last.pn, last.pn + 1);
      NewlyEmpty(front, rs, last.pn + 1);
    }
  }

  lemma {:induction false} NewlyEmpty(sent: seq<SentPacket>, rs: seq<Range>, from: int)
    requires forall i :: 0 <= i < |sent| && from <= sent[i].pn ==> !IsNew(sent[i], rs)
    ensures NewlyFrom(sent, rs, from) == []
  {
    if sent != [] { NewlyEmpty(sent[..|sent| - 1], rs, from); }
  }

  /** Numbers that no untold packet in the ranges has can be skipped. */
  lemma {:induction false} NewlySkip(sent: seq<SentPacket>, rs: seq<Range>, from: int, to: int)
    requires from <= to
    requires forall i :: 0 <= i < |sent| && from <= sent[i].pn < to ==> !IsNew(sent[i], rs)
    ensures NewlyFrom(sent, rs, from) == NewlyFrom(sent, rs, to)
  {
    if sent != [] { NewlySkip(sent[..|sent| - 1], rs, from, to); }
  }

  lemma AckedCallsSnoc(newly: seq<SentPacket>, p: SentPacket)
    ensures AckedCalls(newly + [p]) == AckedCalls(newly) + [PacketAcked(p)]
  {
    assert (newly + [p])[..|newly|] == newly;
  }

  /** What holds once all numbers from `b` on have been walked over. */
  ghost predicate Walked(sent0: seq<SentPacket>, rs: seq<Range>, b: int, calls0: seq<Callback>,
                         sent: seq<SentPacket>, calls: seq<Callback>, tally: Tally)
  {
    && sent == MarkedFrom(sent0, rs, b)
    && calls == calls0 + AckedCalls(NewlyFrom(sent0, rs, b))
    && tally == TallyOf(NewlyFrom(sent0, rs, b))
  }

  lemma WalkedSkip(sent0: seq<SentPacket>, rs: seq<Range>, from: int, to: int, calls0: seq<Callback>,
                   sent: seq<SentPacket>, calls: seq<Callback>, tally: Tally)
    requires Walked(sent0, rs, to, calls0, sent, calls, tally) && from <= to
    requires forall i :: 0 <= i < |sent0| && from <= sent0[i].pn < to ==> !IsNew(sent0[i], rs)
    ensures Walked(sent0, rs, from, calls0, sent, calls, tally)
  {
    NewlySkip(sent0, rs, from, to);
    assert MarkedFrom(sent0, rs, from) == MarkedFrom(sent0, rs, to);
  }

  lemma {:induction false} NewlyAtLeast(sent: seq<SentPacket>, rs: seq<Range>, from: int)
    ensures forall i :: 0 <= i < |NewlyFrom(sent, rs, from)| ==> from <= NewlyFrom(sent, rs, from)[i].pn
  {
    if sent != [] { NewlyAtLeast(sent[..|sent| - 1], rs, from); }
  }

  /** One more number, found in the queue and new. */
  lemma WalkedStep(sent0: seq<SentPacket>, rs: seq<Range>, i: nat, calls0: seq<Callback>,
                   sent: seq<SentPacket>, calls: seq<Callback>, tally: Tally)
    requires Sorted(sent0) && i < |sent0| && IsNew(sent0[i], rs)
    requires Walked(sent0, rs, sent0[i].pn + 1, calls0, sent, calls, tally)
    ensures tally.largest.Some? ==> sent0[i].pn < tally.largest.value.0
    ensures Walked(sent0, rs, sent0[i].pn, calls0,
                   sent[i := sent0[i].(state := Acked)], calls + [PacketAcked(sent0[i])],
                   Tally(tally.includeAckEliciting || sent0[i].ackEliciting,
                         if tally.largest.Some? then tally.largest else Some((sent0[i].pn, sent0[i].timeSent))))
  {
    var p, newly := sent0[i], NewlyFrom(sent0, rs, sent0[i].pn + 1);
    NewlyStep(sent0, rs, i);
    NewlyAtLeast(sent0, rs, p.pn + 1);
    AckedCallsSnoc(newly, p);
    ConcatAssociative(calls0, AckedCalls(newly), [PacketAcked(p)]);
    assert MarkedFrom(sent0, rs, p.pn) == sent[i := p.(state := Acked)];
    TallySnoc(newly, p);
  }

  lemma TallySnoc(newly: seq<SentPacket>, p: SentPacket)
    ensures AnyEliciting(newly + [p]) == (AnyEliciting(newly) || p.ackEliciting)
  {
    if AnyEliciting(newly) {
      var k :| 0 <= k < |newly| && newly[k].ackEliciting;
      assert (newly + [p])[k].ackEliciting;
    }
    assert (newly + [p])[|newly|] == p;
  }

  // ---------------------------------------------------------------- the queue positions of lost packets

  function LostAt(sent: seq<SentPacket>, la: nat, c: Clock, n: nat): seq<nat>
    requires n <= |sent|
  {
    if n == 0 then []
    else LostAt(sent, la, c, n - 1) + (if IsLost(sent, n - 1, la, c) then [n - 1] else [])
  }

  predicate Ascending(xs: seq<nat>) { forall i, j :: 0 <= i < j < |xs| ==> xs[i] < xs[j] }

  lemma {:induction false} LostAtExact(sent: seq<SentPacket>, la: nat, c: Clock, n: nat)
    requires n <= |sent|
    ensures Ascending(LostAt(sent, la, c, n))
    ensures forall i: nat :: i in LostAt(sent, la, c, n) <==> i < n && IsLost(sent, i, la, c)
  {
    if n > 0 {
      LostAtExact(sent, la, c, n - 1);
      var before := LostAt(sent, la, c, n - 1);
      forall k | 0 <= k < |before| ensures before[k] < n - 1 { assert before[k] in before; }
    }
  }

  /** Past the largest acknowledged packet nothing is suspect. */
  lemma {:induction false} NothingBeyond(sent: seq<SentPacket>, la: nat, c: Clock, m: nat, n: nat)
    requires Sorted(sent) && m <= n <= |sent| && (m < |sent| ==> la < sent[m].pn)
    ensures ScanUpTo(sent, la, c, n) == ScanUpTo(sent, la, c, m)
    decreases n - m
  {
    if m < n {
      assert sent[m].pn <= sent[n - 1].pn;
      NothingBeyond(sent, la, c, m, n - 1);
      assert LostMarkedUpTo(sent, la, c, n) == LostMarkedUpTo(sent, la, c, n - 1);
    }
  }

  /** The index the search returns: the last packet up to `pn`, or the first one. */
  function Position(sent: seq<SentPacket>, pn: nat): nat { NewRenoSpec.Monus(CountUpTo(sent, pn), 1) }

  /** What a scan of the first `i` packets has produced. */
  datatype Scanned = Scanned(sent: seq<SentPacket>, lossTime: Option<int>, positions: seq<nat>, lost: seq<SentPacket>)

  function ScanUpTo(sent: seq<SentPacket>, la: nat, c: Clock, i: nat): Scanned
    requires i <= |sent|
  {
    Scanned(LostMarkedUpTo(sent, la, c, i), DeadlineUpTo(sent, la, c, i),
            LostAt(sent, la, c, i), LostUpTo(sent, la, c, i))
  }

  /** One step of the scan, as the code takes it. */
  function ScanOne(st: Scanned, p: SentPacket, i: nat, c: Clock, largestIndex: nat): Scanned
    requires i < |st.sent|
  {
    if p.state != Inflight then st
    else if p.timeSent < c.now - c.lossDelay || largestIndex >= i + c.threshold then
      var gone := p.(state := Retransmitted);
      st.(sent := st.sent[i := gone], positions := st.positions + [i], lost := st.lost + [gone])
    else st.(lossTime := Earlier(st.lossTime, p.timeSent + c.lossDelay))
  }

  lemma ScanStep(sent: seq<SentPacket>, la: nat, c: Clock, i: nat)
    requires Sorted(sent) && i < |sent| && sent[i].pn <= la
    ensures ScanUpTo(sent, la, c, i).sent[i] == sent[i]
    ensures ScanUpTo(sent, la, c, i + 1) == ScanOne(ScanUpTo(sent, la, c, i), sent[i], i, c, Position(sent, la))
  {
    CountUpToIsPrefix(sent, la, i);
    var marked := LostMarkedUpTo(sent, la, c, i);
    assert LostMarkedUpTo(sent, la, c, i + 1)
        == if IsLost(sent, i, la, c) then marked[i := sent[i].(state := Retransmitted)] else marked;
  }

  /** How many positions directly before position `j` of the list continue its run. */
  function Streak(xs: seq<nat>, j: nat): nat
    requires j < |xs|
  {
    if j == 0 || xs[j] != xs[j - 1] + 1 then 0 else Streak(xs, j - 1) + 1
  }

  ghost predicate HasStreak(xs: seq<nat>, n: nat)
    requires n <= |xs|
  {
    exists j :: 0 <= j < n && Streak(xs, j) >= 2
  }

  lemma StreakGivesThree(xs: seq<nat>) returns (x: nat)
    requires HasStreak(xs, |xs|)
    ensures x in xs && x + 1 in xs && x + 2 in xs
  {
    var j :| 0 <= j < |xs| && Streak(xs, j) >= 2;
    assert j > 0 && Streak(xs, j - 1) >= 1;
    x := xs[j - 2];
    assert xs[j - 1] == x + 1 && xs[j] == x + 2;
  }

  lemma ThreeGiveStreak(xs: seq<nat>, x: nat)
    requires Ascending(xs) && x in xs && x + 1 in xs && x + 2 in xs
    ensures HasStreak(xs, |xs|)
  {
    var a :| 0 <= a < |xs| && xs[a] == x;
    NextInList(xs, a);
    NextInList(xs, a + 1);
    assert Streak(xs, a + 2) >= 2;
  }

  /** Three lost packets in a row in the list of positions are three in a row in the queue. */
  lemma StreakIsPersistentLoss(sent: seq<SentPacket>, la: nat, c: Clock)
    ensures HasStreak(LostAt(sent, la, c, |sent|), |LostAt(sent, la, c, |sent|)|) <==> PersistentLoss(sent, la, c)
  {
    var xs := LostAt(sent, la, c, |sent|);
    LostAtExact(sent, la, c, |sent|);
    if HasStreak(xs, |xs|) {
      var x := StreakGivesThree(xs);
      assert IsLost(sent, x, la, c);
    }
    if PersistentLoss(sent, la, c) {
      var x :| 0 <= x < |sent| && IsLost(sent, x, la, c) && IsLost(sent, x + 1, la, c) && IsLost(sent, x + 2, la, c);
      ThreeGiveStreak(xs, x);
    }
  }

  lemma NextInList(xs: seq<nat>, a: nat)
    requires Ascending(xs) && a < |xs| && xs[a] + 1 in xs
    ensures a + 1 < |xs| && xs[a + 1] == xs[a] + 1
  {
    var b :| 0 <= b < |xs| && xs[b] == xs[a] + 1;
    assert a < b;
    assert xs[a] < xs[a + 1] <= xs[b];
  }

  const PERSISTENT_LOSS_THRESHOLD: nat := 3

  /** The fold over the positions of the lost packets, left as soon as three are adjacent. */
  method PersistentlyLost(positions: seq<nat>) returns (persistent: bool)
    ensures persistent <==> HasStreak(positions, |positions|)
  {
    var prev: Option<nat>, count, j := None, 0, 0;
    while j < |positions|
      invariant 0 <= j <= |positions|
      invariant !HasStreak(positions, j)
      invariant if j == 0 then prev == None else prev == Some(positions[j - 1]) && count == Streak(positions, j - 1)
    {
      var lostCount := if prev.Some? && positions[j] == prev.value + 1 then count + 1 else 0;
      assert lostCount == Streak(positions, j);
      if lostCount + 1 >= PERSISTENT_LOSS_THRESHOLD {
        return true;
      }
      prev, count, j := Some(positions[j]), lostCount, j + 1;
    }
    return false;
  }

  function Numbers(ps: seq<SentPacket>): seq<nat> { seq(|ps|, i requires 0 <= i < |ps| => ps[i].pn) }

  lemma StartsWalked(sent: seq<SentPacket>, rs: seq<Range>, calls: seq<Callback>)
    requires Descending(rs) && rs != []
    ensures Walked(sent, rs, rs[0].hi + 1, calls, sent, calls, Tally(false, None))
  {
    assert forall i :: 0 <= i < |sent| && rs[0].hi + 1 <= sent[i].pn ==> !IsNew(sent[i], rs);
    NewlyEmpty(sent, rs, rs[0].hi + 1);
    assert MarkedFrom(sent, rs, rs[0].hi + 1) == sent;
    assert calls + [] == calls;
  }

  /** All numbers from here on have been walked over once `k` ranges are done. */
  ghost function Reached(rs: seq<Range>, k: nat): int
    requires rs != [] && k <= |rs|
  {
    if k == 0 then rs[0].hi + 1 else rs[k - 1].lo
  }

  lemma GapIsEmpty(rs: seq<Range>, k: nat)
    requires Descending(rs) && k < |rs|
    ensures rs[k].hi + 1 <= Reached(rs, k)
    ensures forall pn: nat :: rs[k].hi + 1 <= pn < Reached(rs, k) ==> !InRanges(rs, pn)
  {
    forall pn: nat | rs[k].hi + 1 <= pn < Reached(rs, k) ensures !InRanges(rs, pn) {
      forall i | 0 <= i < |rs| ensures !(rs[i].lo <= pn <= rs[i].hi) {}
    }
  }

  lemma BelowIsEmpty(rs: seq<Range>)
    requires Descending(rs) && rs != []
    ensures forall pn: nat :: pn < rs[|rs| - 1].lo ==> !InRanges(rs, pn)
  {
    forall pn: nat | pn < rs[|rs| - 1].lo ensures !InRanges(rs, pn) {
      forall i | 0 <= i < |rs| ensures !(rs[i].lo <= pn <= rs[i].hi) {}
    }
  }

  /** The gap between one range and the next. */
  lemma WalkedGap(sent0: seq<SentPacket>, rs: seq<Range>, k: nat, calls0: seq<Callback>,
                  sent: seq<SentPacket>, calls: seq<Callback>, tally: Tally)
    requires Descending(rs) && k < |rs| && Walked(sent0, rs, Reached(rs, k), calls0, sent, calls, tally)
    ensures rs[k].hi + 1 <= Reached(rs, k) && Walked(sent0, rs, rs[k].hi + 1, calls0, sent, calls, tally)
  {
    GapIsEmpty(rs, k);
    WalkedSkip(sent0, rs, rs[k].hi + 1, Reached(rs, k), calls0, sent, calls, tally);
  }

  /** Below the last range. */
  lemma WalkedEnd(sent0: seq<SentPacket>, rs: seq<Range>, calls0: seq<Callback>,
                  sent: seq<SentPacket>, calls: seq<Callback>, tally: Tally)
    requires Descending(rs) && rs != [] && Walked(sent0, rs, Reached(rs, |rs|), calls0, sent, calls, tally)
    ensures Walked(sent0, rs, 0, calls0, sent, calls, tally)
  {
    BelowIsEmpty(rs);
    WalkedSkip(sent0, rs, 0, Reached(rs, |rs|), calls0, sent, calls, tally);
  }

  lemma SameNumbers(sent0: seq<SentPacket>, rs: seq<Range>, b: int)
    ensures forall i :: 0 <= i < |sent0| ==> MarkedFrom(sent0, rs, b)[i].pn == sent0[i].pn
  {
  }

  /** Where the cursor stops is the only place `pn` can be, and that packet is still as it was. */
  lemma OnlyThere(sent0: seq<SentPacket>, rs: seq<Range>, pn: nat, index: nat)
    requires Sorted(sent0) && index < |sent0| && (index == 0 || sent0[index].pn <= pn)
    requires forall i :: index < i < |sent0| ==> pn < sent0[i].pn
    ensures forall i :: 0 <= i < |sent0| && sent0[i].pn == pn ==> i == index
    ensures sent0[index].pn == pn ==> MarkedFrom(sent0, rs, pn + 1)[index] == sent0[index]
  {
  }

  class PacketSpace {
    var largestAcked: Option<nat>
    var timeOfLastAckEliciting: Option<int>
    var lossTime: Option<int>
    var sentPackets: seq<SentPacket>

    ghost function View(): Space
      reads this
    {
      Space(largestAcked, timeOfLastAckEliciting, lossTime, sentPackets)
    }

    constructor ()
      ensures View() == EMPTY
    {
      largestAcked, timeOfLastAckEliciting, lossTime, sentPackets := None, None, None, [];
    }

    method UpdateLargestAckedPacket(pn: nat)
      modifies this`largestAcked
      ensures View() == UpdateLargest(old(View()), pn)
    {
      largestAcked := if largestAcked.Some? && pn < largestAcked.value then largestAcked else Some(pn);
    }

    /** Moves the cursor down until no later packet can have number `pn`. */
    method Seek(cursor: nat, pn: nat) returns (index: nat)
      requires cursor < |sentPackets|
      requires forall i :: cursor < i < |sentPackets| ==> pn < sentPackets[i].pn
      ensures index < |sentPackets| && (index == 0 || sentPackets[index].pn <= pn)
      ensures forall i :: index < i < |sentPackets| ==> pn < sentPackets[i].pn
    {
      index := cursor;
      while index > 0 && sentPackets[index].pn > pn
        invariant index < |sentPackets|
        invariant forall i :: index < i < |sentPackets| ==> pn < sentPackets[i].pn
      {
        index := index - 1;
      }
    }

    /** Reports the packet as it is and marks it. */
    method Mark(algorithm: NewReno, index: nat)
      requires algorithm.Valid() && index < |sentPackets|
      modifies this`sentPackets, algorithm
      ensures algorithm.Valid() && algorithm.trace == old(algorithm.trace) + [PacketAcked(old(sentPackets)[index])]
      ensures sentPackets == old(sentPackets)[index := old(sentPackets)[index].(state := Acked)]
    {
      algorithm.OnPacketAcked(sentPackets[index]);
      sentPackets := sentPackets[index := sentPackets[index].(state := Acked)];
    }

    /** Acknowledges the packet with number `pn` if it is tracked and new. */
    method AckNumber(algorithm: NewReno, cursor: nat, pn: nat, tally: Tally,
                     ghost sent0: seq<SentPacket>, ghost rs: seq<Range>, ghost calls0: seq<Callback>)
      returns (index: nat, tally': Tally)
      requires algorithm.Valid() && Sorted(sent0) && cursor < |sent0| && InRanges(rs, pn)
      requires Walked(sent0, rs, pn + 1, calls0, sentPackets, algorithm.trace, tally)
      requires forall i :: cursor < i < |sent0| ==> pn < sent0[i].pn
      modifies this`sentPackets, algorithm
      ensures algorithm.Valid() && index < |sent0|
      ensures Walked(sent0, rs, pn, calls0, sentPackets, algorithm.trace, tally')
      ensures forall i :: index < i < |sent0| ==> pn < sent0[i].pn
    {
      SameNumbers(sent0, rs, pn + 1);
      index := Seek(cursor, pn);
      OnlyThere(sent0, rs, pn, index);
      var p := sentPackets[index];
      if p.pn == pn && p.state != Acked {
        WalkedStep(sent0, rs, index, calls0, sentPackets, algorithm.trace, tally);
        Mark(algorithm, index);
        tally' := Tally(tally.includeAckEliciting || p.ackEliciting,
                        if tally.largest.Some? && !(tally.largest.value.0 < pn) then tally.largest
                        else Some((pn, p.timeSent)));
      } else {
        WalkedSkip(sent0, rs, pn, pn + 1, calls0, sentPackets, algorithm.trace, tally);
        tally' := tally;
      }
    }

    /** Walks one range from its largest number down. */
    method AckRange(algorithm: NewReno, cursor: nat, rs: seq<Range>, k: nat, tally: Tally,
                    ghost sent0: seq<SentPacket>, ghost calls0: seq<Callback>)
      returns (index: nat, tally': Tally)
      requires algorithm.Valid() && Sorted(sent0) && cursor < |sent0| && k < |rs| && rs[k].lo <= rs[k].hi
      requires Walked(sent0, rs, rs[k].hi + 1, calls0, sentPackets, algorithm.trace, tally)
      requires forall i :: cursor < i < |sent0| ==> rs[k].hi < sent0[i].pn
      modifies this`sentPackets, algorithm
      ensures algorithm.Valid() && index < |sent0|
      ensures Walked(sent0, rs, rs[k].lo, calls0, sentPackets, algorithm.trace, tally')
      ensures forall i :: index < i < |sent0| ==> rs[k].lo < sent0[i].pn
    {
      index, tally' := cursor, tally;
      var pn := rs[k].hi + 1;
      while pn > rs[k].lo
        invariant rs[k].lo <= pn <= rs[k].hi + 1
        invariant algorithm.Valid() && index < |sent0|
        invariant Walked(sent0, rs, pn, calls0, sentPackets, algorithm.trace, tally')
        invariant forall i :: index < i < |sent0| ==> pn <= sent0[i].pn
        invariant pn <= rs[k].hi ==> forall i :: index < i < |sent0| ==> pn < sent0[i].pn
      {
        pn := pn - 1;
        index, tally' := AckNumber(algorithm, index, pn, tally', sent0, rs, calls0);
      }
    }

    method DropFinished()
      modifies this`sentPackets
      ensures sentPackets == DropDone(old(sentPackets))
    {
      while sentPackets != [] && (sentPackets[0].state == Acked || sentPackets[0].state == Retransmitted)
        invariant DropDone(sentPackets) == DropDone(old(sentPackets))
        decreases |sentPackets|
      {
        sentPackets := sentPackets[1..];
      }
    }

    /** Walks all ranges, largest first, with one cursor. */
    method AckRanges(frame: AckFrame, algorithm: NewReno) returns (tally: Tally)
      requires algorithm.Valid() && sentPackets != [] && Sorted(sentPackets) && WellFormed(frame)
      modifies this`sentPackets, algorithm
      ensures algorithm.Valid()
      ensures Walked(old(sentPackets), Ranges(frame), 0, old(algorithm.trace), sentPackets, algorithm.trace, tally)
    {
      ghost var sent0, calls0 := sentPackets, algorithm.trace;
      var rs := Ranges(frame);
      RangesDescend(frame);
      var index: nat := Position(sentPackets, frame.largest);
      StartsWalked(sent0, rs, calls0);
      tally := Tally(false, None);
      var k := 0;
      while k < |rs|
        invariant 0 <= k <= |rs| && index < |sent0| && algorithm.Valid()
        invariant Walked(sent0, rs, Reached(rs, k), calls0, sentPackets, algorithm.trace, tally)
        invariant forall i :: index < i < |sent0| ==> Reached(rs, k) <= sent0[i].pn
      {
        WalkedGap(sent0, rs, k, calls0, sentPackets, algorithm.trace, tally);
        index, tally := AckRange(algorithm, index, rs, k, tally, sent0, calls0);
        k := k + 1;
      }
      WalkedEnd(sent0, rs, calls0, sentPackets, algorithm.trace, tally);
    }

    method OnAckRcvd(frame: AckFrame, algorithm: NewReno) returns (r: Option<NewlyAcked>)
      requires algorithm.Valid() && Sorted(sentPackets) && WellFormed(frame)
      modifies this`sentPackets, algorithm
      ensures algorithm.Valid()
      ensures View() == OnAck(old(View()), Ranges(frame))
      ensures algorithm.trace == old(algorithm.trace) + AckCalls(old(View()), Ranges(frame))
      ensures r == AckResult(Newly(old(sentPackets), Ranges(frame)))
    {
      if sentPackets == [] {
        return None;
      }
      var tally := AckRanges(frame, algorithm);
      DropFinished();
      r := if tally.largest.None? then None
      else Some(NewlyAcked(tally.includeAckEliciting, tally.largest.value.0, tally.largest.value.1));
    }

    /** Marks the lost packets, collects them, and rebuilds the loss time from those that survive. */
    method Scan(c: Clock, la: nat) returns (positions: seq<nat>, lost: seq<SentPacket>)
      requires Sorted(sentPackets)
      modifies this`sentPackets, this`lossTime
      ensures Scanned(sentPackets, lossTime, positions, lost)
           == ScanUpTo(old(sentPackets), la, c, |old(sentPackets)|)
    {
      ghost var sent0 := sentPackets;
      var largestIndex := Position(sentPackets, la);
      positions, lost, lossTime := [], [], None;
      var i := 0;
      while i < |sentPackets| && sentPackets[i].pn <= la
        invariant 0 <= i <= |sent0|
        invariant Scanned(sentPackets, lossTime, positions, lost) == ScanUpTo(sent0, la, c, i)
      {
        ScanStep(sent0, la, c, i);
        var p := sentPackets[i];
        if p.state == Inflight {
          if p.timeSent < c.now - c.lossDelay || largestIndex >= i + c.threshold {
            sentPackets := sentPackets[i := p.(state := Retransmitted)];
            positions, lost := positions + [i], lost + [p.(state := Retransmitted)];
          } else {
            lossTime := Earlier(lossTime, p.timeSent + c.lossDelay);
          }
        }
        i := i + 1;
      }
      NothingBeyond(sent0, la, c, i, |sent0|);
    }

    method DetectLostPackets(c: Clock, algorithm: NewReno) returns (numbers: seq<nat>)
      requires algorithm.Valid() && Sorted(sentPackets)
      modifies this`sentPackets, this`lossTime, algorithm
      ensures algorithm.Valid()
      ensures View() == Detect(old(View()), c)
      ensures algorithm.trace == old(algorithm.trace) + DetectCalls(old(View()), c)
      ensures numbers == Numbers(Lost(old(sentPackets), LossBound(old(View())), c))
    {
      ghost var sent0 := sentPackets;
      var la := if largestAcked.Some? then largestAcked.value else 0;
      var positions, lost := Scan(c, la);
      var persistent := PersistentlyLost(positions);
      StreakIsPersistentLoss(sent0, la, c);
      if lost != [] {
        algorithm.OnPacketsLost(lost, persistent, c.now);
      }
      numbers := Numbers(lost);
    }

    method Discard(algorithm: NewReno)
      requires algorithm.Valid() && NewRenoSpec.Taken(algorithm.bytesInFlight, InflightOnly(sentPackets)).Some?
      modifies this`sentPackets, this`timeOfLastAckEliciting, this`lossTime, algorithm
      ensures algorithm.Valid()
      ensures View() == PacketSpec.Discard(old(View()))
      ensures algorithm.trace == old(algorithm.trace) + DiscardCalls(old(View()))
    {
      algorithm.RemoveFromBytesInFlight(InflightOnly(sentPackets));
      sentPackets, timeOfLastAckEliciting, lossTime := [], None, None;
    }
  }
}
