/** What acknowledgement and loss detection do to the queue, exactly, and over whole runs. */
module PacketProofs {
  import opened Prelude
  import opened AckFrames
  import opened PacketSpec

  // ---------------------------------------------------------------- acknowledgement is set membership

  ghost predicate DescendingPns(ps: seq<SentPacket>) {
    forall i, j :: 0 <= i < j < |ps| ==> ps[j].pn < ps[i].pn
  }

  lemma {:induction false} NewlyMembers(sent: seq<SentPacket>, rs: seq<Range>, from: int)
    ensures forall p :: p in NewlyFrom(sent, rs, from) <==> p in sent && from <= p.pn && IsNew(p, rs)
  {
    if sent != [] {
      NewlyMembers(sent[..|sent| - 1], rs, from);
      assert sent == sent[..|sent| - 1] + [sent[|sent| - 1]];
    }
  }

  lemma {:induction false} NewlyDescends(sent: seq<SentPacket>, rs: seq<Range>, from: int)
    requires Sorted(sent)
    ensures DescendingPns(NewlyFrom(sent, rs, from))
  {
    if sent != [] {
      var front, last := sent[..|sent| - 1], sent[|sent| - 1];
      NewlyDescends(front, rs, from);
      NewlyMembers(front, rs, from);
      var tail := NewlyFrom(front, rs, from);
      forall i | 0 <= i < |tail| ensures tail[i].pn < last.pn { assert tail[i] in front; }
    }
  }

  /**
   * The packets reported as newly acknowledged are exactly the tracked, not yet acknowledged ones
   * whose numbers lie in the ranges, largest first; the result names the largest and says whether
   * one of them asked for an acknowledgement, and is absent exactly when there are none.
   */
  lemma AckIsMembership(s: Space, rs: seq<Range>)
    requires Sorted(s.sent)
    ensures var newly := Newly(s.sent, rs);
            && DescendingPns(newly)
            && (forall p :: p in newly <==> p in s.sent && p.state != Acked && InRanges(rs, p.pn))
            && (AckResult(newly).None? <==> forall p :: p in s.sent ==> p.state == Acked || !InRanges(rs, p.pn))
            && (AckResult(newly).Some? ==>
                  && (exists p :: && p in newly && p.pn == AckResult(newly).value.largest
                                  && p.timeSent == AckResult(newly).value.timeSent)
                  && (forall p :: p in newly ==> p.pn <= AckResult(newly).value.largest)
                  && (AckResult(newly).value.includeAckEliciting <==> exists p :: p in newly && p.ackEliciting))
  {
    var newly := Newly(s.sent, rs);
    NewlyMembers(s.sent, rs, 0);
    NewlyDescends(s.sent, rs, 0);
    if newly == [] {
      forall p | p in s.sent ensures p.state == Acked || !InRanges(rs, p.pn) { assert p !in newly; }
    } else {
      assert newly[0] in newly;
      if AnyEliciting(newly) {
        var i :| 0 <= i < |newly| && newly[i].ackEliciting;
        assert newly[i] in newly;
      }
    }
  }

  /** Exactly the finished packets before the first one in flight leave the queue. */
  lemma {:induction false} DropDoneSuffix(sent: seq<SentPacket>) returns (k: nat)
    ensures k <= |sent| && DropDone(sent) == sent[k..]
    ensures forall i :: 0 <= i < k ==> sent[i].state != Inflight
    ensures k < |sent| ==> sent[k].state == Inflight
  {
    if sent == [] || sent[0].state == Inflight {
      k := 0;
    } else {
      var k' := DropDoneSuffix(sent[1..]);
      k := k' + 1;
      forall i | 0 <= i < k ensures sent[i].state != Inflight {
        if i > 0 { assert sent[i] == sent[1..][i - 1]; }
      }
    }
  }

  // ---------------------------------------------------------------- loss detection

  lemma {:induction false} CountUpToIsPrefix(sent: seq<SentPacket>, la: nat, i: nat)
    requires Sorted(sent) && i < |sent|
    ensures sent[i].pn <= la <==> i < CountUpTo(sent, la)
  {
    if sent[0].pn <= la && i > 0 { CountUpToIsPrefix(sent[1..], la, i - 1); }
  }

  /** The positions after `i` and before `n`. */
  ghost function Between(i: int, n: int): (r: set<int>)
    requires i < n
    ensures |r| == n - 1 - i && forall j :: j in r <==> i < j < n
    decreases n - i
  {
    if n == i + 1 then {} else Between(i, n - 1) + {n - 1}
  }

  /** The threshold test counts the later tracked packets up to the largest acknowledged one. */
  lemma LaterTracked(sent: seq<SentPacket>, i: nat, la: nat)
    requires Sorted(sent) && i < |sent| && sent[i].pn <= la
    ensures |set j | i < j < |sent| && sent[j].pn <= la| == CountUpTo(sent, la) - 1 - i
  {
    var n, later := CountUpTo(sent, la), set j | i < j < |sent| && sent[j].pn <= la;
    CountUpToIsPrefix(sent, la, i);
    forall j ensures j in later <==> j in Between(i, n) {
      if 0 <= j < |sent| { CountUpToIsPrefix(sent, la, j); }
    }
    assert later == Between(i, n);
  }

  lemma {:induction false} LostMembers(sent: seq<SentPacket>, la: nat, c: Clock, n: nat)
    requires n <= |sent|
    ensures forall p :: p in LostUpTo(sent, la, c, n) <==>
              exists i :: 0 <= i < n && IsLost(sent, i, la, c) && p == sent[i].(state := Retransmitted)
  {
    if n > 0 { LostMembers(sent, la, c, n - 1); }
  }

  /**
   * The new loss time is the earliest deadline of the suspects that survive; it is never in the
   * past, and absent exactly when no suspect survives.
   */
  lemma {:induction false} DeadlineIsEarliest(sent: seq<SentPacket>, la: nat, c: Clock, n: nat)
    requires n <= |sent|
    ensures var d := DeadlineUpTo(sent, la, c, n);
            && (d.None? <==> forall i :: 0 <= i < n ==> !Survives(sent, i, la, c))
            && (d.Some? ==>
                  && c.now <= d.value
                  && (exists i :: 0 <= i < n && Survives(sent, i, la, c) && d.value == sent[i].timeSent + c.lossDelay)
                  && (forall i :: 0 <= i < n && Survives(sent, i, la, c) ==> d.value <= sent[i].timeSent + c.lossDelay))
  {
    if n > 0 {
      DeadlineIsEarliest(sent, la, c, n - 1);
      var d' := DeadlineUpTo(sent, la, c, n - 1);
      if Survives(sent, n - 1, la, c) {
        var d := DeadlineUpTo(sent, la, c, n);
        if d'.None? || sent[n - 1].timeSent + c.lossDelay < d'.value {
          assert d.value == sent[n - 1].timeSent + c.lossDelay;
        }
      }
    }
  }

  // ---------------------------------------------------------------- every packet's history

  /** How one packet appears in a callback. */
  datatype Move = Ack(was: State) | Loss | Removal

  function Times(ps: seq<SentPacket>, pn: nat, move: Move): seq<Move> {
    if ps == [] then []
    else Times(ps[..|ps| - 1], pn, move) + (if ps[|ps| - 1].pn == pn then [move] else [])
  }

  function MovesOf(call: Callback, pn: nat): seq<Move> {
    match call
    case PacketSent(_) => []
    case PacketAcked(p) => if p.pn == pn then [Ack(p.state)] else []
    case PacketsLost(ps, _, _) => Times(ps, pn, Loss)
    case Removed(ps) => Times(ps, pn, Removal)
    case Ecn(_, _, _, _) => []
  }

  /** All that the algorithm was told about the packet numbered `pn`, in order. */
  function History(trace: seq<Callback>, pn: nat): seq<Move> {
    if trace == [] then [] else History(trace[..|trace| - 1], pn) + MovesOf(trace[|trace| - 1], pn)
  }

  /** Left flight exactly once: acknowledged, lost (and perhaps acknowledged late), or discarded. */
  predicate Finished(h: seq<Move>) {
    h == [Ack(Inflight)] || h == [Loss] || h == [Loss, Ack(Retransmitted)] || h == [Removal]
  }

  predicate Fits(state: State, h: seq<Move>) {
    match state
    case Inflight => h == []
    case Acked => h == [Ack(Inflight)] || h == [Loss, Ack(Retransmitted)]
    case Retransmitted => h == [Loss]
  }

  ghost predicate Tracked(sent: seq<SentPacket>, pn: nat) { exists i :: 0 <= i < |sent| && sent[i].pn == pn }

  /**
   * `log` holds the numbers of all packets ever pushed. A tracked packet's state tells its history;
   * a pushed packet that is no longer tracked is finished; nothing is said about others.
   */
  ghost predicate Lives(sent: seq<SentPacket>, log: set<nat>, trace: seq<Callback>) {
    && Sorted(sent)
    && (forall i :: 0 <= i < |sent| ==> sent[i].pn in log && Fits(sent[i].state, History(trace, sent[i].pn)))
    && (forall pn :: pn in log && !Tracked(sent, pn) ==> Finished(History(trace, pn)))
    && (forall pn: nat :: pn !in log ==> History(trace, pn) == [])
  }

  lemma {:induction false} HistoryConcat(a: seq<Callback>, b: seq<Callback>, pn: nat)
    ensures History(a + b, pn) == History(a, pn) + History(b, pn)
  {
    if b == [] {
      assert a + b == a;
    } else {
      HistoryConcat(a, b[..|b| - 1], pn);
      assert (a + b)[..|a + b| - 1] == a + b[..|b| - 1];
      ConcatAssociative(History(a, pn), History(b[..|b| - 1], pn), MovesOf(b[|b| - 1], pn));
    }
  }

  lemma AckedSnoc(newly: seq<SentPacket>, pn: nat)
    requires newly != []
    ensures History(AckedCalls(newly), pn)
         == History(AckedCalls(newly[..|newly| - 1]), pn)
            + if newly[|newly| - 1].pn == pn then [Ack(newly[|newly| - 1].state)] else []
  {
    assert AckedCalls(newly)[..|newly| - 1] == AckedCalls(newly[..|newly| - 1]);
  }

  lemma {:induction false} AckedNone(newly: seq<SentPacket>, pn: nat)
    requires forall i :: 0 <= i < |newly| ==> newly[i].pn != pn
    ensures History(AckedCalls(newly), pn) == []
  {
    if newly != [] {
      AckedNone(newly[..|newly| - 1], pn);
      AckedSnoc(newly, pn);
    }
  }

  lemma {:induction false} AckedHistory(newly: seq<SentPacket>, i: nat)
    requires DescendingPns(newly) && i < |newly|
    ensures History(AckedCalls(newly), newly[i].pn) == [Ack(newly[i].state)]
  {
    var front := newly[..|newly| - 1];
    AckedSnoc(newly, newly[i].pn);
    if i < |front| {
      assert front[i] == newly[i];
      AckedHistory(front, i);
    } else {
      AckedNone(front, newly[i].pn);
    }
  }

  lemma {:induction false} TimesOnce(ps: seq<SentPacket>, pn: nat, move: Move)
    requires Sorted(ps)
    ensures Times(ps, pn, move) == if Tracked(ps, pn) then [move] else []
  {
    if ps != [] {
      var front, last := ps[..|ps| - 1], ps[|ps| - 1];
      TimesOnce(front, pn, move);
      if last.pn == pn {
        assert !Tracked(front, pn);
      } else if Tracked(ps, pn) {
        var i :| 0 <= i < |ps| && ps[i].pn == pn;
        assert front[i].pn == pn;
      }
    }
  }

  lemma SingleHistory(call: Callback, pn: nat)
    ensures History([call], pn) == MovesOf(call, pn)
  {
    assert [call][..0] == [];
    assert History([], pn) + MovesOf(call, pn) == MovesOf(call, pn);
  }

  lemma {:induction false} LostSorted(sent: seq<SentPacket>, la: nat, c: Clock, n: nat)
    requires Sorted(sent) && n <= |sent|
    ensures Sorted(LostUpTo(sent, la, c, n))
  {
    if n > 0 {
      LostSorted(sent, la, c, n - 1);
      LostMembers(sent, la, c, n - 1);
      var before := LostUpTo(sent, la, c, n - 1);
      forall i | 0 <= i < |before| ensures before[i].pn < sent[n - 1].pn { assert before[i] in before; }
    }
  }

  lemma {:induction false} KeptBelow(sent: seq<SentPacket>, bound: int)
    requires forall i :: 0 <= i < |sent| ==> sent[i].pn < bound
    ensures forall k :: 0 <= k < |InflightOnly(sent)| ==> InflightOnly(sent)[k].pn < bound
  {
    if sent != [] { KeptBelow(sent[..|sent| - 1], bound); }
  }

  lemma {:induction false} InflightOnlySorted(sent: seq<SentPacket>)
    requires Sorted(sent)
    ensures Sorted(InflightOnly(sent))
  {
    if sent != [] {
      InflightOnlySorted(sent[..|sent| - 1]);
      KeptBelow(sent[..|sent| - 1], sent[|sent| - 1].pn);
    }
  }

  lemma SameTracked(sent: seq<SentPacket>, sent': seq<SentPacket>, pn: nat)
    requires |sent'| == |sent| && forall i :: 0 <= i < |sent| ==> sent'[i].pn == sent[i].pn
    ensures Tracked(sent, pn) <==> Tracked(sent', pn)
  {
    if i :| 0 <= i < |sent| && sent[i].pn == pn { assert sent'[i].pn == pn; }
  }

  /** Changing states in place, with one callback for each change, keeps the histories. */
  lemma Relabel(
    sent: seq<SentPacket>, sent': seq<SentPacket>, log: set<nat>, trace: seq<Callback>, calls: seq<Callback>)
    requires Lives(sent, log, trace)
    requires |sent'| == |sent|
    requires forall i :: 0 <= i < |sent| ==>
               && sent'[i].pn == sent[i].pn
               && Fits(sent'[i].state, History(trace, sent[i].pn) + History(calls, sent[i].pn))
    requires forall pn: nat :: !Tracked(sent, pn) ==> History(calls, pn) == []
    ensures Lives(sent', log, trace + calls)
  {
    forall pn: nat ensures History(trace + calls, pn) == History(trace, pn) + History(calls, pn) {
      HistoryConcat(trace, calls, pn);
    }
    forall pn: nat ensures Tracked(sent, pn) <==> Tracked(sent', pn) { SameTracked(sent, sent', pn); }
  }

  lemma NewlyTracked(sent: seq<SentPacket>, rs: seq<Range>, pn: nat)
    requires Tracked(Newly(sent, rs), pn)
    ensures exists i :: 0 <= i < |sent| && sent[i].pn == pn && IsNew(sent[i], rs)
  {
    NewlyMembers(sent, rs, 0);
    var k :| 0 <= k < |Newly(sent, rs)| && Newly(sent, rs)[k].pn == pn;
    assert Newly(sent, rs)[k] in sent;
  }

  lemma NewlyIndex(sent: seq<SentPacket>, rs: seq<Range>, i: nat) returns (k: nat)
    requires i < |sent| && IsNew(sent[i], rs)
    ensures k < |Newly(sent, rs)| && Newly(sent, rs)[k] == sent[i]
  {
    NewlyMembers(sent, rs, 0);
    assert sent[i] in Newly(sent, rs);
    k :| 0 <= k < |Newly(sent, rs)| && Newly(sent, rs)[k] == sent[i];
  }

  lemma AckedOfIndex(sent: seq<SentPacket>, rs: seq<Range>, i: nat)
    requires Sorted(sent) && i < |sent|
    ensures History(AckedCalls(Newly(sent, rs)), sent[i].pn) == if IsNew(sent[i], rs) then [Ack(sent[i].state)] else []
  {
    if IsNew(sent[i], rs) {
      NewlyDescends(sent, rs, 0);
      var k := NewlyIndex(sent, rs, i);
      AckedHistory(Newly(sent, rs), k);
    } else {
      if Tracked(Newly(sent, rs), sent[i].pn) { NewlyTracked(sent, rs, sent[i].pn); }
      AckedNone(Newly(sent, rs), sent[i].pn);
    }
  }

  lemma UntrackedNotAcked(sent: seq<SentPacket>, rs: seq<Range>, pn: nat)
    requires Sorted(sent) && !Tracked(sent, pn)
    ensures History(AckedCalls(Newly(sent, rs)), pn) == []
  {
    if Tracked(Newly(sent, rs), pn) { NewlyTracked(sent, rs, pn); }
    AckedNone(Newly(sent, rs), pn);
  }

  lemma AckedFits(sent: seq<SentPacket>, rs: seq<Range>, h: seq<Move>, i: nat)
    requires Sorted(sent) && i < |sent| && Fits(sent[i].state, h)
    ensures Fits(Marked(sent, rs)[i].state, h + History(AckedCalls(Newly(sent, rs)), sent[i].pn))
  {
    AckedOfIndex(sent, rs, i);
  }

  lemma AckPreserves(sent: seq<SentPacket>, rs: seq<Range>, log: set<nat>, trace: seq<Callback>)
    requires Lives(sent, log, trace)
    ensures Lives(Marked(sent, rs), log, trace + AckedCalls(Newly(sent, rs)))
  {
    var calls := AckedCalls(Newly(sent, rs));
    forall i | 0 <= i < |sent|
      ensures Fits(Marked(sent, rs)[i].state, History(trace, sent[i].pn) + History(calls, sent[i].pn))
    {
      AckedFits(sent, rs, History(trace, sent[i].pn), i);
    }
    forall pn: nat | !Tracked(sent, pn) ensures History(calls, pn) == [] { UntrackedNotAcked(sent, rs, pn); }
    Relabel(sent, Marked(sent, rs), log, trace, calls);
  }

  /** Dropping finished packets from the front loses no packet in flight. */
  /** A pushed packet that is not among those left over has finished. */
  lemma DroppedIsFinished(sent: seq<SentPacket>, k: nat, log: set<nat>, trace: seq<Callback>, pn: nat)
    requires Lives(sent, log, trace) && k <= |sent| && pn in log && !Tracked(sent[k..], pn)
    requires forall i :: 0 <= i < k ==> sent[i].state != Inflight
    ensures Finished(History(trace, pn))
  {
    if i :| 0 <= i < |sent| && sent[i].pn == pn {
      assert k <= i ==> sent[k..][i - k].pn == pn;
      assert Fits(sent[i].state, History(trace, sent[i].pn));
    }
  }

  lemma DropPreserves(sent: seq<SentPacket>, log: set<nat>, trace: seq<Callback>)
    requires Lives(sent, log, trace)
    ensures Lives(DropDone(sent), log, trace)
    ensures forall p :: p in sent && p.state == Inflight ==> p in DropDone(sent)
  {
    var k := DropDoneSuffix(sent);
    var sent' := sent[k..];
    forall pn | pn in log && !Tracked(sent', pn) ensures Finished(History(trace, pn)) {
      DroppedIsFinished(sent, k, log, trace, pn);
    }
    forall p | p in sent && p.state == Inflight ensures p in sent' {
      var i :| 0 <= i < |sent| && sent[i] == p;
      assert i >= k && sent'[i - k] == p;
    }
  }

  lemma LostTracked(sent: seq<SentPacket>, la: nat, c: Clock, pn: nat)
    requires Tracked(Lost(sent, la, c), pn)
    ensures exists i :: 0 <= i < |sent| && sent[i].pn == pn && IsLost(sent, i, la, c)
  {
    LostMembers(sent, la, c, |sent|);
    var k :| 0 <= k < |Lost(sent, la, c)| && Lost(sent, la, c)[k].pn == pn;
    assert Lost(sent, la, c)[k] in Lost(sent, la, c);
  }

  lemma LostOfIndex(sent: seq<SentPacket>, la: nat, c: Clock, i: nat)
    requires Sorted(sent) && i < |sent|
    ensures Tracked(Lost(sent, la, c), sent[i].pn) <==> IsLost(sent, i, la, c)
  {
    if IsLost(sent, i, la, c) {
      LostMembers(sent, la, c, |sent|);
      assert sent[i].(state := Retransmitted) in Lost(sent, la, c);
    }
    if Tracked(Lost(sent, la, c), sent[i].pn) { LostTracked(sent, la, c, sent[i].pn); }
  }

  /**
   * What the documentation calls lost, counted packet by packet: in flight, not above the largest
   * acknowledged number `la`, and too old or followed by enough tracked packets up to that number.
   */
  ghost predicate OverdueUpTo(sent: seq<SentPacket>, la: nat, c: Clock, i: nat) {
    && i < |sent| && sent[i].state == Inflight && sent[i].pn <= la
    && (sent[i].timeSent < c.now - c.lossDelay || |set j | i < j < |sent| && sent[j].pn <= la| >= c.threshold)
  }

  /** Without any acknowledgement the code takes packet number zero for the largest acknowledged one. */
  ghost predicate Overdue(s: Space, c: Clock, i: nat) {
    match s.largestAcked
    case Some(la) => OverdueUpTo(s.sent, la, c, i)
    case None => OverdueUpTo(s.sent, 0, c, i)
  }

  /** In flight, not above that number, and not lost yet. */
  ghost predicate Waits(s: Space, c: Clock, i: nat) {
    && i < |s.sent| && s.sent[i].state == Inflight && !Overdue(s, c, i)
    && s.sent[i].pn <= (if s.largestAcked.Some? then s.largestAcked.value else 0)
  }

  lemma OverdueIsLost(s: Space, c: Clock, i: nat)
    requires Sorted(s.sent)
    ensures Overdue(s, c, i) <==> IsLost(s.sent, i, LossBound(s), c)
    ensures Waits(s, c, i) <==> Survives(s.sent, i, LossBound(s), c)
  {
    if i < |s.sent| && s.sent[i].pn <= LossBound(s) { LaterTracked(s.sent, i, LossBound(s)); }
  }

  /** The algorithm is told that the packet numbered `pn` is lost. */
  ghost predicate ReportsLost(calls: seq<Callback>, pn: nat) {
    exists k :: 0 <= k < |calls| && calls[k].PacketsLost? && Tracked(calls[k].packets, pn)
  }

  lemma ReportsLostTracked(s: Space, c: Clock, pn: nat)
    ensures ReportsLost(DetectCalls(s, c), pn) <==> Tracked(Lost(s.sent, LossBound(s), c), pn)
  {
    if Tracked(Lost(s.sent, LossBound(s), c), pn) {
      assert DetectCalls(s, c)[0].PacketsLost? && Tracked(DetectCalls(s, c)[0].packets, pn);
    }
  }

  /** Loss detection is exact: a packet is reported lost, and marked, if and only if it is overdue. */
  lemma LossIsExact(s: Space, c: Clock, i: nat)
    requires Sorted(s.sent) && i < |s.sent|
    ensures ReportsLost(DetectCalls(s, c), s.sent[i].pn) <==> Overdue(s, c, i)
    ensures |Detect(s, c).sent| == |s.sent|
    ensures Detect(s, c).sent[i] == if Overdue(s, c, i) then s.sent[i].(state := Retransmitted) else s.sent[i]
  {
    ReportsLostTracked(s, c, s.sent[i].pn);
    LostOfIndex(s.sent, LossBound(s), c, i);
    OverdueIsLost(s, c, i);
  }

  /** Detection is thorough: nothing is overdue afterwards. */
  lemma DetectLeavesNone(s: Space, c: Clock, i: nat)
    requires Sorted(s.sent)
    ensures !Overdue(Detect(s, c), c, i)
  {
    var s' := Detect(s, c);
    if i < |s.sent| {
      LossIsExact(s, c, i);
      var la := if s.largestAcked.Some? then s.largestAcked.value else 0;
      assert (set j | i < j < |s.sent| && s.sent[j].pn <= la) == (set j | i < j < |s'.sent| && s'.sent[j].pn <= la);
    }
  }

  /** The loss time is the earliest deadline of the packets that wait, absent without any, never in the past. */
  lemma LossTimeIsExact(s: Space, c: Clock)
    requires Sorted(s.sent)
    ensures var t := Detect(s, c).lossTime;
            && (t.None? <==> forall i: nat :: !Waits(s, c, i))
            && (t.Some? ==> c.now <= t.value)
            && (t.Some? ==> exists i: nat :: Waits(s, c, i) && t.value == s.sent[i].timeSent + c.lossDelay)
            && (t.Some? ==> forall i: nat :: Waits(s, c, i) ==> t.value <= s.sent[i].timeSent + c.lossDelay)
  {
    forall i: nat ensures Waits(s, c, i) <==> Survives(s.sent, i, LossBound(s), c) { OverdueIsLost(s, c, i); }
    DeadlineIsEarliest(s.sent, LossBound(s), c, |s.sent|);
  }

  /**
   * Detection reports something if and only if some tracked packet is overdue; it then makes one
   * call, which says "persistent" if and only if three neighbours in the queue are overdue.
   */
  lemma FindsLossIff(s: Space, c: Clock)
    requires Sorted(s.sent)
    ensures var calls := DetectCalls(s, c);
            && (calls != [] <==> exists i: nat :: Overdue(s, c, i))
            && (calls != [] ==> |calls| == 1 && calls[0].PacketsLost? && calls[0].now == c.now)
            && (calls != [] && calls[0].PacketsLost? && calls[0].persistent <==>
                exists i: nat :: Overdue(s, c, i) && Overdue(s, c, i + 1) && Overdue(s, c, i + 2))
  {
    var la := LossBound(s);
    forall i: nat ensures Overdue(s, c, i) <==> IsLost(s.sent, i, la, c) { OverdueIsLost(s, c, i); }
    LostMembers(s.sent, la, c, |s.sent|);
    if Lost(s.sent, la, c) != [] { assert Lost(s.sent, la, c)[0] in Lost(s.sent, la, c); }
    if i: nat :| IsLost(s.sent, i, la, c) { assert s.sent[i].(state := Retransmitted) in Lost(s.sent, la, c); }
  }

  /**
   * Before any acknowledgement the missing number counts as zero: packet zero is reported lost once
   * it is too old, and no other packet is. Section 6.1 of RFC 9002 asks for an acknowledgement of a
   * later packet first.
   */
  lemma LostBeforeAnyAckIff(s: Space, c: Clock, i: nat)
    requires Sorted(s.sent) && i < |s.sent| && s.largestAcked.None? && 0 < c.threshold
    ensures ReportsLost(DetectCalls(s, c), s.sent[i].pn) <==>
              s.sent[i].pn == 0 && s.sent[i].state == Inflight && s.sent[i].timeSent < c.now - c.lossDelay
  {
    LossIsExact(s, c, i);
    if s.sent[i].pn == 0 {
      assert (set j | i < j < |s.sent| && s.sent[j].pn <= 0) == {};
    }
  }

  lemma DetectStaysSorted(s: Space, c: Clock)
    requires Sorted(s.sent)
    ensures Sorted(Detect(s, c).sent)
  {
  }

  lemma WaitingIsOverdueLater(s: Space, c: Clock, i: nat, now: int)
    requires Waits(s, c, i) && s.sent[i].timeSent + c.lossDelay < now && Detect(s, c).sent[i] == s.sent[i]
    ensures Overdue(Detect(s, c), c.(now := now), i)
  {
  }

  /** A deadline that detection itself has set finds its packet once it has passed. */
  lemma PassedDeadlineFindsLoss(s: Space, c: Clock, now: int)
    requires Sorted(s.sent) && Detect(s, c).lossTime.Some? && Detect(s, c).lossTime.value < now
    ensures DetectCalls(Detect(s, c), c.(now := now)) != []
  {
    LossTimeIsExact(s, c);
    var i: nat :| Waits(s, c, i) && Detect(s, c).lossTime.value == s.sent[i].timeSent + c.lossDelay;
    LossIsExact(s, c, i);
    WaitingIsOverdueLater(s, c, i, now);
    DetectStaysSorted(s, c);
    FindsLossIff(Detect(s, c), c.(now := now));
  }

  /** An acknowledgement only raises the largest number, and to no more than it says. */
  lemma LargestIsMaximum(s: Space, pn: nat)
    ensures var la := UpdateLargest(s, pn).largestAcked;
            && la.Some? && pn <= la.value && (s.largestAcked.Some? ==> s.largestAcked.value <= la.value)
            && (la.value == pn || la == s.largestAcked)
            && UpdateLargest(s, pn) == s.(largestAcked := la)
  {
  }

  lemma DetectHistory(s: Space, c: Clock, pn: nat)
    requires Sorted(s.sent)
    ensures History(DetectCalls(s, c), pn) == if Tracked(Lost(s.sent, LossBound(s), c), pn) then [Loss] else []
  {
    var lost := Lost(s.sent, LossBound(s), c);
    if lost != [] {
      LostSorted(s.sent, LossBound(s), c, |s.sent|);
      TimesOnce(lost, pn, Loss);
      SingleHistory(DetectCalls(s, c)[0], pn);
    }
  }

  lemma DetectPreserves(s: Space, c: Clock, log: set<nat>, trace: seq<Callback>)
    requires Lives(s.sent, log, trace)
    ensures Lives(Detect(s, c).sent, log, trace + DetectCalls(s, c))
  {
    var la, calls := LossBound(s), DetectCalls(s, c);
    forall i | 0 <= i < |s.sent|
      ensures Fits(Detect(s, c).sent[i].state, History(trace, s.sent[i].pn) + History(calls, s.sent[i].pn))
    {
      DetectHistory(s, c, s.sent[i].pn);
      LostOfIndex(s.sent, la, c, i);
    }
    forall pn: nat | !Tracked(s.sent, pn) ensures History(calls, pn) == [] {
      DetectHistory(s, c, pn);
      if Tracked(Lost(s.sent, la, c), pn) { LostTracked(s.sent, la, c, pn); }
    }
    Relabel(s.sent, Detect(s, c).sent, log, trace, calls);
  }

  lemma {:induction false} InflightIsKept(sent: seq<SentPacket>, i: nat)
    requires i < |sent| && sent[i].state == Inflight
    ensures Tracked(InflightOnly(sent), sent[i].pn)
  {
    var front, last := sent[..|sent| - 1], sent[|sent| - 1];
    if i < |front| {
      InflightIsKept(front, i);
      var k :| 0 <= k < |InflightOnly(front)| && InflightOnly(front)[k].pn == sent[i].pn;
      assert InflightOnly(sent)[k].pn == sent[i].pn;
    } else {
      assert InflightOnly(sent)[|InflightOnly(front)|] == last;
    }
  }

  lemma {:induction false} KeptIsInflight(sent: seq<SentPacket>, pn: nat)
    requires Tracked(InflightOnly(sent), pn)
    ensures exists i :: 0 <= i < |sent| && sent[i].pn == pn && sent[i].state == Inflight
  {
    var front, last := sent[..|sent| - 1], sent[|sent| - 1];
    var k :| 0 <= k < |InflightOnly(sent)| && InflightOnly(sent)[k].pn == pn;
    if k < |InflightOnly(front)| {
      assert InflightOnly(front)[k].pn == pn;
      KeptIsInflight(front, pn);
      var i :| 0 <= i < |front| && front[i].pn == pn && front[i].state == Inflight;
      assert sent[i] == front[i];
    } else {
      assert sent[|front|] == last;
    }
  }

  lemma RemovedOfIndex(sent: seq<SentPacket>, i: nat)
    requires Sorted(sent) && i < |sent|
    ensures Tracked(InflightOnly(sent), sent[i].pn) <==> sent[i].state == Inflight
  {
    if sent[i].state == Inflight { InflightIsKept(sent, i); }
    if Tracked(InflightOnly(sent), sent[i].pn) { KeptIsInflight(sent, sent[i].pn); }
  }

  lemma RemovedHistory(s: Space, trace: seq<Callback>, pn: nat)
    requires Sorted(s.sent)
    ensures History(trace + DiscardCalls(s), pn)
         == History(trace, pn) + if Tracked(InflightOnly(s.sent), pn) then [Removal] else []
  {
    InflightOnlySorted(s.sent);
    TimesOnce(InflightOnly(s.sent), pn, Removal);
    SingleHistory(DiscardCalls(s)[0], pn);
    HistoryConcat(trace, DiscardCalls(s), pn);
  }

  lemma RemovedTracked(sent: seq<SentPacket>, pn: nat)
    requires Tracked(InflightOnly(sent), pn)
    ensures Tracked(sent, pn)
  {
    KeptIsInflight(sent, pn);
  }

  lemma RemovalFinishes(state: State, h: seq<Move>)
    requires Fits(state, h)
    ensures Finished(h + if state == Inflight then [Removal] else [])
  {
  }

  lemma DiscardFinishes(s: Space, log: set<nat>, trace: seq<Callback>, pn: nat)
    requires Lives(s.sent, log, trace)
    ensures pn in log ==> Finished(History(trace + DiscardCalls(s), pn))
    ensures pn !in log ==> History(trace + DiscardCalls(s), pn) == []
  {
    RemovedHistory(s, trace, pn);
    if Tracked(s.sent, pn) {
      var i :| 0 <= i < |s.sent| && s.sent[i].pn == pn;
      RemovedOfIndex(s.sent, i);
      RemovalFinishes(s.sent[i].state, History(trace, pn));
    } else {
      assert !Tracked(InflightOnly(s.sent), pn) by {
        if Tracked(InflightOnly(s.sent), pn) { RemovedTracked(s.sent, pn); }
      }
      assert History(trace, pn) + [] == History(trace, pn);
    }
  }

  lemma DiscardPreserves(s: Space, log: set<nat>, trace: seq<Callback>)
    requires Lives(s.sent, log, trace)
    ensures Lives([], log, trace + DiscardCalls(s))
  {
    forall pn: nat
      ensures pn in log ==> Finished(History(trace + DiscardCalls(s), pn))
      ensures pn !in log ==> History(trace + DiscardCalls(s), pn) == []
    {
      DiscardFinishes(s, log, trace, pn);
    }
  }

  lemma SendPreserves(sent: seq<SentPacket>, p: SentPacket, log: set<nat>, trace: seq<Callback>)
    requires Lives(sent, log, trace) && p.state == Inflight && (forall n :: n in log ==> n < p.pn)
    ensures Lives(sent + [p], log + {p.pn}, trace)
  {
    var sent' := sent + [p];
    forall pn: nat | Tracked(sent, pn) ensures Tracked(sent', pn) {
      var i :| 0 <= i < |sent| && sent[i].pn == pn;
      assert sent'[i].pn == pn;
    }
    assert sent'[|sent|].pn == p.pn;
  }

  /** Callbacks that name no packet's end leave all histories as they are. */
  lemma SilentCall(sent: seq<SentPacket>, log: set<nat>, trace: seq<Callback>, call: Callback)
    requires Lives(sent, log, trace) && (call.PacketSent? || call.Ecn?)
    ensures Lives(sent, log, trace + [call])
  {
    forall pn: nat ensures History(trace + [call], pn) == History(trace, pn) {
      SingleHistory(call, pn);
      HistoryConcat(trace, [call], pn);
    }
  }

  // ---------------------------------------------------------------- whole runs of one space

  datatype Op =
    | Send(packet: SentPacket)
    | OnAckFrame(frame: AckFrame)
    | DetectLost(clock: Clock)
    | DiscardAll

  datatype Life = Life(space: Space, log: set<nat>, trace: seq<Callback>)

  /** Packet numbers ascend, and acknowledged ranges do not fall below zero. */
  predicate Allowed(l: Life, op: Op) {
    match op
    case Send(p) => p.state == Inflight && forall n :: n in l.log ==> n < p.pn
    case OnAckFrame(f) => WellFormed(f)
    case _ => true
  }

  function NextLife(l: Life, op: Op): Life {
    if !Allowed(l, op) then l
    else
      match op
      case Send(p) =>
        Life(l.space.(sent := l.space.sent + [p]), l.log + {p.pn},
             if p.countForCc then l.trace + [PacketSent(p)] else l.trace)
      case OnAckFrame(f) =>
        var s := UpdateLargest(l.space, f.largest);
        Life(OnAck(s, Ranges(f)), l.log, l.trace + AckCalls(s, Ranges(f)))
      case DetectLost(c) => Life(Detect(l.space, c), l.log, l.trace + DetectCalls(l.space, c))
      case DiscardAll => Life(Discard(l.space), l.log, l.trace + DiscardCalls(l.space))
  }

  function RunLife(ops: seq<Op>): Life {
    if ops == [] then Life(EMPTY, {}, []) else NextLife(RunLife(ops[..|ops| - 1]), ops[|ops| - 1])
  }

  lemma AckFramePreserves(sent: seq<SentPacket>, rs: seq<Range>, log: set<nat>, trace: seq<Callback>)
    requires Lives(sent, log, trace)
    ensures Lives(DropDone(Marked(sent, rs)), log, trace + AckedCalls(Newly(sent, rs)))
  {
    AckPreserves(sent, rs, log, trace);
    DropPreserves(Marked(sent, rs), log, trace + AckedCalls(Newly(sent, rs)));
  }

  ghost predicate LifeOk(l: Life) { Lives(l.space.sent, l.log, l.trace) }

  lemma NextLifeOk(l: Life, op: Op)
    requires LifeOk(l)
    ensures LifeOk(NextLife(l, op))
  {
    if Allowed(l, op) {
      match op
      case Send(p) =>
        SendPreserves(l.space.sent, p, l.log, l.trace);
        SilentCall(l.space.sent + [p], l.log + {p.pn}, l.trace, PacketSent(p));
      case OnAckFrame(f) => AckFramePreserves(l.space.sent, Ranges(f), l.log, l.trace);
      case DetectLost(c) => DetectPreserves(l.space, c, l.log, l.trace);
      case DiscardAll => DiscardPreserves(l.space, l.log, l.trace);
    }
  }

  lemma {:induction false} LifeIsKept(ops: seq<Op>)
    ensures LifeOk(RunLife(ops))
  {
    if ops != [] {
      LifeIsKept(ops[..|ops| - 1]);
      NextLifeOk(RunLife(ops[..|ops| - 1]), ops[|ops| - 1]);
    }
  }

  lemma LivesOnce(sent: seq<SentPacket>, log: set<nat>, trace: seq<Callback>, pn: nat)
    requires Lives(sent, log, trace)
    ensures var h := History(trace, pn);
            && (pn !in log ==> h == [])
            && (pn in log ==> (h == [] <==> exists p :: p in sent && p.pn == pn && p.state == Inflight))
            && (pn in log && h != [] ==> Finished(h))
  {
    if pn in log && Tracked(sent, pn) {
      var i :| 0 <= i < |sent| && sent[i].pn == pn;
      assert Fits(sent[i].state, History(trace, pn));
      assert sent[i] in sent;
    }
  }

  /**
   * Over every run: a pushed packet is either still in flight, and then no callback has named it,
   * or it has left flight through exactly one callback, it was lost at most once, acknowledged at
   * most once, and never lost after being acknowledged.
   */
  lemma ExactlyOnce(ops: seq<Op>, pn: nat)
    ensures var l := RunLife(ops); var h := History(l.trace, pn);
            && (pn !in l.log ==> h == [])
            && (pn in l.log ==> (h == [] <==> exists p :: p in l.space.sent && p.pn == pn && p.state == Inflight))
            && (pn in l.log && h != [] ==> Finished(h))
  {
    LifeIsKept(ops);
    LivesOnce(RunLife(ops).space.sent, RunLife(ops).log, RunLife(ops).trace, pn);
  }
}
