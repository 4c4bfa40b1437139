/** What every run of the congestion controller keeps. */
module CongestionProofs {
  import opened Prelude
  import opened AckFrames
  import opened PacketSpec
  import opened PacketProofs
  import opened CongestionSpec
  import Reno = NewRenoSpec

  // ---------------------------------------------------------------- invariants

  /** Every packet of every space has the history its state tells. */
  ghost predicate AllLive(cc: Cc) {
    forall e: Epoch :: Lives(cc.spaces.Get(e).sent, cc.log.Get(e), cc.told.Get(e))
  }

  function Total(ss: Per<Space>): nat {
    Reno.Flying(ss.initial.sent) + Reno.Flying(ss.handshake.sent) + Reno.Flying(ss.data.sent)
  }

  function Others(ss: Per<Space>, e: Epoch): nat { Total(ss) - Reno.Flying(ss.Get(e).sent) }

  /** What NewReno makes of the callbacks so far; absent if a subtraction had underflowed. */
  function RenoOf(trace: seq<Callback>, mds: nat): Option<Reno.Reno> {
    Reno.ApplyAll(Reno.New(mds), mds, trace)
  }

  /** Its count of bytes in flight is the sum over the packets in flight. */
  predicate Accounted(cc: Cc, mds: nat) {
    var r := RenoOf(cc.trace, mds);
    r.Some? && Reno.Floor(r.value, mds) && r.value.bytes == Total(cc.spaces)
  }

  /** Whenever some space has a loss time, the timer is the earliest of them. */
  predicate TimerIsLossTime(cc: Cc) {
    LossTimeAndEpoch(cc.spaces).Some? ==> cc.timer == Time(LossTimeAndEpoch(cc.spaces))
  }

  ghost predicate Inv(cc: Cc, mds: nat) {
    AllLive(cc) && Accounted(cc, mds) && AllStamped(cc.spaces) && TimerIsLossTime(cc)
  }

  // ---------------------------------------------------------------- one space changes

  lemma ChangeKeepsLives(cc: Cc, e: Epoch, s: Space, calls: seq<Callback>)
    requires AllLive(cc) && Lives(s.sent, cc.log.Get(e), cc.told.Get(e) + calls)
    ensures AllLive(Change(cc, e, s, calls))
  {
    var cc' := Change(cc, e, s, calls);
    forall d: Epoch ensures Lives(cc'.spaces.Get(d).sent, cc'.log.Get(d), cc'.told.Get(d)) {
      if d != e { assert Lives(cc.spaces.Get(d).sent, cc.log.Get(d), cc.told.Get(d)); }
    }
  }

  lemma ChangeKeepsBytes(cc: Cc, e: Epoch, s: Space, calls: seq<Callback>, mds: nat)
    requires Reno.StartsAtFloor(mds) && RenoOf(cc.trace, mds).Some?
    requires var r := Reno.ApplyAll(RenoOf(cc.trace, mds).value, mds, calls);
             r.Some? && r.value.bytes == Others(cc.spaces, e) + Reno.Flying(s.sent)
    ensures Accounted(Change(cc, e, s, calls), mds)
  {
    Reno.ApplyAllConcat(Reno.New(mds), mds, cc.trace, calls);
    Reno.FloorKeptByAll(Reno.New(mds), mds, cc.trace + calls);
  }

  /** Lives and bytes depend on neither timer, probe count, round trip time nor probe requests. */
  predicate SameBooks(cc: Cc, cc': Cc) {
    cc'.spaces == cc.spaces && cc'.log == cc.log && cc'.told == cc.told && cc'.trace == cc.trace
  }

  lemma BooksKept(cc: Cc, cc': Cc)
    requires SameBooks(cc, cc') && AllLive(cc)
    ensures AllLive(cc')
  {
    forall e: Epoch ensures Lives(cc'.spaces.Get(e).sent, cc'.log.Get(e), cc'.told.Get(e)) {
      assert Lives(cc.spaces.Get(e).sent, cc.log.Get(e), cc.told.Get(e));
    }
  }

  lemma SetTimerIsLossTime(cc: Cc, env: Env)
    ensures TimerIsLossTime(SetTimer(cc, env)) && SameBooks(cc, SetTimer(cc, env))
  {
  }

  // ---------------------------------------------------------------- loss detection and acknowledgement

  /** The books are right: histories, bytes and send times. */
  ghost predicate Booked(cc: Cc, mds: nat) { AllLive(cc) && Accounted(cc, mds) && AllStamped(cc.spaces) }

  lemma DetectInLives(cc: Cc, env: Env, e: Epoch)
    requires AllLive(cc)
    ensures AllLive(DetectIn(cc, env, e))
  {
    var s, c := cc.spaces.Get(e), ClockOf(cc, env);
    assert Lives(s.sent, cc.log.Get(e), cc.told.Get(e));
    DetectPreserves(s, c, cc.log.Get(e), cc.told.Get(e));
    ChangeKeepsLives(cc, e, Detect(s, c), DetectCalls(s, c));
  }

  lemma DetectInBytes(cc: Cc, env: Env, e: Epoch, mds: nat)
    requires Reno.StartsAtFloor(mds) && Accounted(cc, mds)
    ensures Accounted(DetectIn(cc, env, e), mds)
  {
    var s, c := cc.spaces.Get(e), ClockOf(cc, env);
    Reno.DetectKeepsBytes(s, c, RenoOf(cc.trace, mds).value, mds, Others(cc.spaces, e));
    ChangeKeepsBytes(cc, e, Detect(s, c), DetectCalls(s, c), mds);
  }

  lemma DetectInStamps(cc: Cc, env: Env, e: Epoch)
    requires AllStamped(cc.spaces)
    ensures AllStamped(DetectIn(cc, env, e).spaces)
  {
  }

  lemma DetectInKeeps(cc: Cc, env: Env, e: Epoch, mds: nat)
    requires Reno.StartsAtFloor(mds) && Booked(cc, mds)
    ensures Booked(DetectIn(cc, env, e), mds)
  {
    DetectInLives(cc, env, e);
    DetectInBytes(cc, env, e, mds);
    DetectInStamps(cc, env, e);
  }

  lemma OnAckSettles(s: Space, rs: seq<Range>)
    ensures NoElicitInFlight(s.sent) ==> NoElicitInFlight(OnAck(s, rs).sent)
  {
    var k := DropDoneSuffix(Marked(s.sent, rs));
  }

  /** One space acknowledges, and the algorithm is told. */
  function AckIn(cc: Cc, e: Epoch, f: AckFrame): Cc
    requires WellFormed(f)
  {
    var s := UpdateLargest(cc.spaces.Get(e), f.largest);
    Change(cc, e, OnAck(s, Ranges(f)), AckCalls(s, Ranges(f)))
  }

  lemma AckInLives(cc: Cc, e: Epoch, f: AckFrame)
    requires AllLive(cc) && WellFormed(f)
    ensures AllLive(AckIn(cc, e, f))
  {
    var s, rs := UpdateLargest(cc.spaces.Get(e), f.largest), Ranges(f);
    assert Lives(cc.spaces.Get(e).sent, cc.log.Get(e), cc.told.Get(e));
    AckFramePreserves(s.sent, rs, cc.log.Get(e), cc.told.Get(e));
    ChangeKeepsLives(cc, e, OnAck(s, rs), AckCalls(s, rs));
  }

  lemma AckInBytes(cc: Cc, e: Epoch, f: AckFrame, mds: nat)
    requires Reno.StartsAtFloor(mds) && Accounted(cc, mds) && WellFormed(f)
    ensures Accounted(AckIn(cc, e, f), mds)
  {
    var s, rs := UpdateLargest(cc.spaces.Get(e), f.largest), Ranges(f);
    Reno.AckKeepsBytes(s, rs, RenoOf(cc.trace, mds).value, mds, Others(cc.spaces, e));
    ChangeKeepsBytes(cc, e, OnAck(s, rs), AckCalls(s, rs), mds);
  }

  lemma AckInStamps(cc: Cc, e: Epoch, f: AckFrame)
    requires AllStamped(cc.spaces) && WellFormed(f)
    ensures AllStamped(AckIn(cc, e, f).spaces)
  {
    OnAckSettles(UpdateLargest(cc.spaces.Get(e), f.largest), Ranges(f));
  }

  lemma AckInKeeps(cc: Cc, e: Epoch, f: AckFrame, mds: nat)
    requires Reno.StartsAtFloor(mds) && Booked(cc, mds) && WellFormed(f)
    ensures Booked(AckIn(cc, e, f), mds)
  {
    AckInLives(cc, e, f);
    AckInBytes(cc, e, f, mds);
    AckInStamps(cc, e, f);
  }

  /** A call that concerns no packet's flight. */
  function Note(cc: Cc, e: Epoch, call: Callback): Cc { Change(cc, e, cc.spaces.Get(e), [call]) }

  lemma EcnLives(cc: Cc, e: Epoch, call: Callback)
    requires AllLive(cc) && call.Ecn?
    ensures AllLive(Note(cc, e, call))
  {
    assert Lives(cc.spaces.Get(e).sent, cc.log.Get(e), cc.told.Get(e));
    SilentCall(cc.spaces.Get(e).sent, cc.log.Get(e), cc.told.Get(e), call);
    ChangeKeepsLives(cc, e, cc.spaces.Get(e), [call]);
  }

  lemma EcnKeeps(cc: Cc, e: Epoch, call: Callback, mds: nat)
    requires Reno.StartsAtFloor(mds) && Booked(cc, mds) && call.Ecn?
    ensures Booked(Note(cc, e, call), mds)
  {
    EcnLives(cc, e, call);
    Reno.SingleCall(RenoOf(cc.trace, mds).value, mds, call);
    ChangeKeepsBytes(cc, e, cc.spaces.Get(e), [call], mds);
  }

  lemma AbsorbKeeps(cc: Cc, env: Env, e: Epoch, f: AckFrame, mds: nat)
    requires Reno.StartsAtFloor(mds) && Booked(cc, mds) && WellFormed(f)
    ensures Booked(Absorb(cc, env, e, f), mds)
  {
    var s := UpdateLargest(cc.spaces.Get(e), f.largest);
    var result := AckResult(Newly(s.sent, Ranges(f)));
    var cc1 := AckIn(cc, e, f);
    AckInKeeps(cc, e, f, mds);
    if result.Some? {
      var sampled := result.value.largest == f.largest && result.value.includeAckEliciting;
      var cc2 := if sampled then cc1.(rtt := env.sample) else cc1;
      BooksKept(cc1, cc2);
      if f.ecn.Some? {
        EcnKeeps(cc2, e, Ecn(Index(e), f.ecn.value.ce, result.value.timeSent, env.now), mds);
      }
    }
  }

  /** Without a newly acknowledged packet no loss time changes. */
  lemma QuietAck(cc: Cc, env: Env, e: Epoch, f: AckFrame)
    requires WellFormed(f) && !HasNew(cc, e, f)
    ensures var cc' := Absorb(cc, env, e, f);
            cc'.timer == cc.timer && LossTimeAndEpoch(cc'.spaces) == LossTimeAndEpoch(cc.spaces)
  {
  }

  lemma OnAckRcvdKeeps(cc: Cc, env: Env, e: Epoch, f: AckFrame, mds: nat)
    requires Reno.StartsAtFloor(mds) && Inv(cc, mds) && WellFormed(f)
    ensures Inv(OnAckRcvd(cc, env, e, f), mds)
  {
    var cc1 := Absorb(cc, env, e, f);
    AbsorbKeeps(cc, env, e, f, mds);
    if HasNew(cc, e, f) {
      var cc2 := DetectIn(cc1, env, e);
      DetectInKeeps(cc1, env, e, mds);
      SettledByTimer(if PeerCompleted(env.path) then cc2.(pto := 0) else cc2, cc2, env, mds);
    } else {
      QuietAck(cc, env, e, f);
    }
  }

  /** Setting the timer closes a step. */
  lemma SettledByTimer(cc: Cc, booked: Cc, env: Env, mds: nat)
    requires Reno.StartsAtFloor(mds) && SameBooks(booked, cc) && Booked(booked, mds)
    ensures Inv(SetTimer(cc, env), mds)
  {
    SetTimerIsLossTime(cc, env);
    BooksKept(booked, SetTimer(cc, env));
  }

  // ---------------------------------------------------------------- the other events

  lemma OnTimeoutKeeps(cc: Cc, env: Env, mds: nat)
    requires Reno.StartsAtFloor(mds) && Booked(cc, mds)
    ensures Inv(OnTimeout(cc, env), mds)
  {
    var loss := LossTimeAndEpoch(cc.spaces);
    if loss.Some? {
      DetectInKeeps(cc, env, loss.value.1, mds);
      SettledByTimer(DetectIn(cc, env, loss.value.1), DetectIn(cc, env, loss.value.1), env, mds);
    } else {
      SettledByTimer(Probe(cc, env).(pto := cc.pto + 1), cc, env, mds);
    }
  }

  lemma OnDatagramKeeps(cc: Cc, env: Env, mds: nat)
    requires Reno.StartsAtFloor(mds) && Inv(cc, mds)
    ensures Inv(OnDatagram(cc, env), mds)
  {
    if env.path.atLimit {
      SettledByTimer(cc, cc, env, mds);
      OnTimeoutKeeps(SetTimer(cc, env), env, mds);
    }
  }

  lemma DiscardEpochKeeps(cc: Cc, env: Env, e: Epoch, mds: nat)
    requires Reno.StartsAtFloor(mds) && Booked(cc, mds)
    ensures Inv(DiscardEpoch(cc, env, e), mds)
  {
    var s := cc.spaces.Get(e);
    var cc1 := Change(cc, e, Discard(s), DiscardCalls(s));
    assert Lives(s.sent, cc.log.Get(e), cc.told.Get(e));
    DiscardPreserves(s, cc.log.Get(e), cc.told.Get(e));
    ChangeKeepsLives(cc, e, Discard(s), DiscardCalls(s));
    Reno.DiscardKeepsBytes(s, RenoOf(cc.trace, mds).value, mds, Others(cc.spaces, e));
    ChangeKeepsBytes(cc, e, Discard(s), DiscardCalls(s), mds);
    SettledByTimer(cc1.(timer := None, pto := 0), cc1, env, mds);
  }

  lemma NewSatisfiesInv(rtt: Rtt, mds: nat)
    requires Reno.StartsAtFloor(mds)
    ensures Inv(New(rtt), mds)
  {
    forall e: Epoch ensures Lives(New(rtt).spaces.Get(e).sent, New(rtt).log.Get(e), New(rtt).told.Get(e)) {}
  }

  /** The space after a send, whether or not the packet counts. */
  function SentIn(s: Space, p: SentPacket, lossDelay: nat): Space {
    var s1 := if p.countForCc then Announced(s, p, lossDelay) else s;
    s1.(sent := s1.sent + [p])
  }

  function SentCalls(p: SentPacket): seq<Callback> { if p.countForCc then [PacketSent(p)] else [] }

  lemma OnPacketSentShape(cc: Cc, env: Env, e: Epoch, p: SentPacket)
    ensures var cc' := OnPacketSent(cc, env, e, p);
            && cc'.spaces == cc.spaces.Set(e, SentIn(cc.spaces.Get(e), p, cc.rtt.lossDelay))
            && cc'.log == cc.log.Set(e, cc.log.Get(e) + {p.pn})
            && cc'.told == cc.told.Set(e, cc.told.Get(e) + SentCalls(p))
            && cc'.trace == cc.trace + SentCalls(p)
  {
    assert cc.told.Get(e) + [] == cc.told.Get(e);
    assert cc.trace + [] == cc.trace;
  }

  lemma SentLives(cc: Cc, env: Env, e: Epoch, p: SentPacket)
    requires AllLive(cc) && Possible(cc, env, PktSent(e, p))
    ensures AllLive(OnPacketSent(cc, env, e, p))
  {
    var s, log, told, cc' := cc.spaces.Get(e), cc.log.Get(e), cc.told.Get(e), OnPacketSent(cc, env, e, p);
    OnPacketSentShape(cc, env, e, p);
    assert Lives(s.sent, log, told);
    SendPreserves(s.sent, p, log, told);
    if p.countForCc {
      SilentCall(s.sent + [p], log + {p.pn}, told, PacketSent(p));
    } else {
      assert told + SentCalls(p) == told;
    }
    forall d: Epoch ensures Lives(cc'.spaces.Get(d).sent, cc'.log.Get(d), cc'.told.Get(d)) {
      if d != e { assert Lives(cc.spaces.Get(d).sent, cc.log.Get(d), cc.told.Get(d)); }
    }
  }

  lemma SentBytes(cc: Cc, env: Env, e: Epoch, p: SentPacket, mds: nat)
    requires Reno.StartsAtFloor(mds) && Accounted(cc, mds) && p.state == Inflight
    ensures Accounted(OnPacketSent(cc, env, e, p), mds)
  {
    OnPacketSentShape(cc, env, e, p);
    Reno.SendKeepsBytes(cc.spaces.Get(e).sent, p, RenoOf(cc.trace, mds).value, mds, Others(cc.spaces, e));
    Reno.ApplyAllConcat(Reno.New(mds), mds, cc.trace, SentCalls(p));
    Reno.FloorKeptByAll(Reno.New(mds), mds, cc.trace + SentCalls(p));
  }

  lemma SentStamped(s: Space, p: SentPacket, lossDelay: nat)
    requires Stamped(s) && (p.ackEliciting ==> p.countForCc)
    ensures Stamped(SentIn(s, p, lossDelay))
    ensures !p.countForCc && !NoElicitInFlight(SentIn(s, p, lossDelay).sent) ==> !NoElicitInFlight(s.sent)
  {
    var sent' := s.sent + [p];
    assert NoElicitInFlight(s.sent) && !p.ackEliciting ==> NoElicitInFlight(sent');
  }

  lemma AnnounceStamped(cc: Cc, e: Epoch, p: SentPacket)
    requires AllStamped(cc.spaces)
    ensures AllStamped(Announce(cc, e, p).spaces)
  {
  }

  /** Queueing the packet after the timer was set does not spoil the timer. */
  lemma SentTimer(cc: Cc, env: Env, e: Epoch, p: SentPacket)
    requires TimerIsLossTime(cc)
    ensures TimerIsLossTime(OnPacketSent(cc, env, e, p))
    ensures p.countForCc ==> OnPacketSent(cc, env, e, p).timer.Some?
  {
    var cc1 := if p.countForCc then SetTimer(Announce(cc, e, p), env) else cc;
    assert LossTimeAndEpoch(OnPacketSent(cc, env, e, p).spaces) == LossTimeAndEpoch(cc1.spaces);
  }

  lemma OnPacketSentKeeps(cc: Cc, env: Env, e: Epoch, p: SentPacket, mds: nat)
    requires Reno.StartsAtFloor(mds) && Inv(cc, mds) && Possible(cc, env, PktSent(e, p))
    ensures Inv(OnPacketSent(cc, env, e, p), mds)
  {
    SentLives(cc, env, e, p);
    SentBytes(cc, env, e, p, mds);
    SentTimer(cc, env, e, p);
    OnPacketSentShape(cc, env, e, p);
    SentStamped(cc.spaces.Get(e), p, cc.rtt.lossDelay);
  }

  // ---------------------------------------------------------------- whole runs

  lemma NextKeeps(cc: Cc, env: Env, step: Event, mds: nat)
    requires Reno.StartsAtFloor(mds) && Inv(cc, mds)
    ensures Inv(Next(cc, env, step), mds)
  {
    if Possible(cc, env, step) {
      match step
      case PktSent(e, p) =>
        OnPacketSentKeeps(cc, env, e, p, mds);
        DiscardEpochKeeps(OnPacketSent(cc, env, e, p), env, Initial, mds);
      case AckRcvd(e, f) =>
        OnAckRcvdKeeps(cc, env, e, f, mds);
        DiscardEpochKeeps(OnAckRcvd(cc, env, e, f), env, Initial, mds);
      case PktRcvd(_) => OnDatagramKeeps(cc, env, mds);
      case Tick => OnTimeoutKeeps(cc, env, mds);
      case DropEpoch(e) => DiscardEpochKeeps(cc, env, e, mds);
    }
  }

  lemma {:induction false} RunKeeps(rtt: Rtt, steps: seq<(Env, Event)>, mds: nat)
    requires Reno.StartsAtFloor(mds)
    ensures Inv(Run(rtt, steps), mds)
  {
    if steps == [] {
      NewSatisfiesInv(rtt, mds);
    } else {
      RunKeeps(rtt, steps[..|steps| - 1], mds);
      NextKeeps(Run(rtt, steps[..|steps| - 1]), steps[|steps| - 1].0, steps[|steps| - 1].1, mds);
    }
  }

  /**
   * Over every run of the controller no subtraction underflows, the bytes in flight are the sum
   * over the packets in flight of all three spaces, and a window that starts at two datagrams or
   * more stays there.
   */
  lemma BytesInFlight(rtt: Rtt, steps: seq<(Env, Event)>, mds: nat)
    requires Reno.StartsAtFloor(mds)
    ensures var cc := Run(rtt, steps); var r := RenoOf(cc.trace, mds);
            && r.Some? && r.value.bytes == Total(cc.spaces) && mds <= r.value.cwnd
            && (2 * mds <= Reno.New(mds).cwnd ==> 2 * mds <= r.value.cwnd)
  {
    RunKeeps(rtt, steps, mds);
    Reno.FloorKeptByAll(Reno.New(mds), mds, Run(rtt, steps).trace);
  }

  /** Over every run, each packet of each space leaves flight through exactly one callback. */
  lemma EveryPacketOnce(rtt: Rtt, steps: seq<(Env, Event)>, e: Epoch, pn: nat)
    ensures var cc := Run(rtt, steps); var h := History(cc.told.Get(e), pn);
            && (pn !in cc.log.Get(e) ==> h == [])
            && (pn in cc.log.Get(e) ==>
                  (h == [] <==> exists p :: p in cc.spaces.Get(e).sent && p.pn == pn && p.state == Inflight))
            && (pn in cc.log.Get(e) && h != [] ==> Finished(h))
  {
    var cc := Run(rtt, steps);
    RunKeeps(rtt, steps, 1);
    assert Lives(cc.spaces.Get(e).sent, cc.log.Get(e), cc.told.Get(e));
    LivesOnce(cc.spaces.Get(e).sent, cc.log.Get(e), cc.told.Get(e), pn);
  }

  // ---------------------------------------------------------------- the timer

  /** The selected loss time is the earliest; on a tie the first space wins. */
  lemma LossTimeIsEarliest(ss: Per<Space>)
    ensures var r := LossTimeAndEpoch(ss);
            && (r.None? <==> forall e: Epoch :: ss.Get(e).lossTime.None?)
            && (r.Some? ==> ss.Get(r.value.1).lossTime == Some(r.value.0))
            && (r.Some? ==> forall e: Epoch :: ss.Get(e).lossTime.Some? ==>
                  && r.value.0 <= ss.Get(e).lossTime.value
                  && (Index(e) < Index(r.value.1) ==> r.value.0 < ss.Get(e).lossTime.value))
  {
    assert ss.Get(Initial) == ss.initial && ss.Get(Handshake) == ss.handshake && ss.Get(Data) == ss.data;
  }

  /** Some packet of the space is in flight and asks for an acknowledgement. */
  ghost predicate Asks(s: Space) { exists p :: p in s.sent && p.ackEliciting && p.state == Inflight }

  /** A space to probe for: the application's only once the handshake is confirmed. */
  ghost predicate Eligible(ss: Per<Space>, path: Path, e: Epoch) { Asks(ss.Get(e)) && (e == Data ==> path.confirmed) }

  ghost predicate NothingAsks(ss: Per<Space>) { forall e: Epoch :: !Asks(ss.Get(e)) }

  /** The server has shown that it will answer, or this end is the server. */
  predicate Validated(path: Path) { path.isServer || path.handshakeAck || path.confirmed }

  lemma AsksMeaning(s: Space)
    ensures Asks(s) <==> !NoElicitInFlight(s.sent)
  {
    if !NoElicitInFlight(s.sent) {
      var i :| 0 <= i < |s.sent| && s.sent[i].ackEliciting && s.sent[i].state == Inflight;
      assert s.sent[i] in s.sent;
    }
  }

  lemma ProbedMeaning(ss: Per<Space>, path: Path)
    ensures NoElicit(ss) <==> NothingAsks(ss)
    ensures forall e: Epoch :: Probed(ss, path, e) <==> Eligible(ss, path, e)
  {
    forall e: Epoch ensures Asks(ss.Get(e)) <==> !NoElicitInFlight(ss.Get(e).sent) { AsksMeaning(ss.Get(e)); }
    assert ss.Get(Initial) == ss.initial && ss.Get(Handshake) == ss.handshake && ss.Get(Data) == ss.data;
  }

  /**
   * When a space is due for a probe: the last ack-eliciting send, the round trip time and the
   * backed-off variance after it, and for the application the backed-off acknowledgement delay.
   */
  function DueAfter(last: int, rtt: Rtt, backoff: nat, maxAckDelay: nat, e: Epoch): int {
    last + rtt.smoothed + Max(4 * rtt.rttvar, 1000) * Pow2(backoff)
    + if e == Data then maxAckDelay * Pow2(backoff) else 0
  }

  function Due(cc: Cc, maxAckDelay: nat, e: Epoch): int
    requires cc.spaces.Get(e).lastElicit.Some?
  {
    DueAfter(cc.spaces.Get(e).lastElicit.value, cc.rtt, cc.pto, maxAckDelay, e)
  }

  lemma StampedEligible(ss: Per<Space>, path: Path, e: Epoch)
    requires AllStamped(ss) && Eligible(ss, path, e)
    ensures ss.Get(e).lastElicit.Some?
  {
    AsksMeaning(ss.Get(e));
  }

  /** With packets to probe for, the probe time is the earliest over the eligible spaces, the first on a tie. */
  lemma PtoIsEarliest(cc: Cc, env: Env)
    requires !NothingAsks(cc.spaces) && AllStamped(cc.spaces)
    ensures var r := PtoTimeAndEpoch(cc, env);
            && (r.None? <==> forall e: Epoch :: !Eligible(cc.spaces, env.path, e))
            && (r.Some? ==>
                  && Eligible(cc.spaces, env.path, r.value.1) && cc.spaces.Get(r.value.1).lastElicit.Some?
                  && r.value.0 == Due(cc, env.maxAckDelay, r.value.1))
            && (r.Some? ==> forall e: Epoch :: Eligible(cc.spaces, env.path, e) ==>
                  && cc.spaces.Get(e).lastElicit.Some? && r.value.0 <= Due(cc, env.maxAckDelay, e)
                  && (Index(e) < Index(r.value.1) ==> r.value.0 < Due(cc, env.maxAckDelay, e)))
  {
    ProbedMeaning(cc.spaces, env.path);
    forall e: Epoch | Eligible(cc.spaces, env.path, e) ensures cc.spaces.Get(e).lastElicit.Some? {
      StampedEligible(cc.spaces, env.path, e);
    }
    var i, h, d := PtoOf(cc, env, Initial), PtoOf(cc, env, Handshake), PtoOf(cc, env, Data);
    assert i.Some? == Probed(cc.spaces, env.path, Initial);
    assert h.Some? == Probed(cc.spaces, env.path, Handshake);
    assert d.Some? == Probed(cc.spaces, env.path, Data);
  }

  /**
   * With nothing to probe for, the probe time is counted from now, and the probe goes to the
   * Handshake space exactly if its keys are there.
   */
  lemma AntiDeadlockProbe(cc: Cc, env: Env)
    requires NothingAsks(cc.spaces)
    ensures PtoTimeAndEpoch(cc, env)
         == Some((env.now + cc.rtt.smoothed + Max(4 * cc.rtt.rttvar, 1000) * Pow2(cc.pto),
                  if env.path.hasHandshakeKey then Handshake else Initial))
  {
    ProbedMeaning(cc.spaces, env.path);
  }

  lemma PtoPresentIff(cc: Cc, env: Env)
    requires !NoElicit(cc.spaces)
    ensures PtoTimeAndEpoch(cc, env).None? <==> forall e: Epoch :: !Probed(cc.spaces, env.path, e)
  {
    var i, h, d := PtoOf(cc, env, Initial), PtoOf(cc, env, Handshake), PtoOf(cc, env, Data);
    assert i.Some? == Probed(cc.spaces, env.path, Initial);
    assert h.Some? == Probed(cc.spaces, env.path, Handshake);
    assert d.Some? == Probed(cc.spaces, env.path, Data);
  }

  /** Exactly when no timer is set. */
  lemma TimerNoneIff(cc: Cc, env: Env)
    ensures SetTimer(cc, env).timer.None? <==>
            && (forall e: Epoch :: cc.spaces.Get(e).lossTime.None?)
            && (env.path.atLimit
                || (NothingAsks(cc.spaces) && Validated(env.path))
                || (!NothingAsks(cc.spaces) && forall e: Epoch :: !Eligible(cc.spaces, env.path, e)))
  {
    LossTimeIsEarliest(cc.spaces);
    ProbedMeaning(cc.spaces, env.path);
    if !NoElicit(cc.spaces) { PtoPresentIff(cc, env); }
  }

  /** A packet that needs a probe keeps the timer armed. */
  ghost predicate Armed(cc: Cc, path: Path) {
    !path.atLimit && (exists e: Epoch :: Eligible(cc.spaces, path, e)) ==> cc.timer.Some?
  }

  lemma EligibleStays(ss: Per<Space>, ss': Per<Space>, path: Path)
    requires forall e: Epoch :: NoElicitInFlight(ss.Get(e).sent) ==> NoElicitInFlight(ss'.Get(e).sent)
    ensures forall e: Epoch :: Eligible(ss', path, e) ==> Eligible(ss, path, e)
  {
    ProbedMeaning(ss, path);
    ProbedMeaning(ss', path);
    forall e: Epoch | Probed(ss', path, e) ensures Probed(ss, path, e) {}
  }

  lemma SetTimerArms(cc: Cc, env: Env)
    ensures Armed(SetTimer(cc, env), env.path)
  {
    TimerNoneIff(cc, env);
    if e: Epoch :| Eligible(cc.spaces, env.path, e) { assert Asks(cc.spaces.Get(e)); }
  }

  lemma OnPacketSentArms(cc: Cc, env: Env, e: Epoch, p: SentPacket)
    requires TimerIsLossTime(cc) && AllStamped(cc.spaces) && Armed(cc, env.path) && Possible(cc, env, PktSent(e, p))
    ensures Armed(OnPacketSent(cc, env, e, p), env.path)
  {
    SentTimer(cc, env, e, p);
    OnPacketSentShape(cc, env, e, p);
    SentStamped(cc.spaces.Get(e), p, cc.rtt.lossDelay);
    if !p.countForCc {
      var cc' := OnPacketSent(cc, env, e, p);
      EligibleStays(cc.spaces, cc'.spaces, env.path);
    }
  }

  lemma QuietAckArms(cc: Cc, env: Env, e: Epoch, f: AckFrame)
    requires Armed(cc, env.path) && WellFormed(f) && !HasNew(cc, e, f)
    ensures Armed(Absorb(cc, env, e, f), env.path)
  {
    OnAckSettles(UpdateLargest(cc.spaces.Get(e), f.largest), Ranges(f));
    EligibleStays(cc.spaces, Absorb(cc, env, e, f).spaces, env.path);
  }

  lemma OnAckRcvdArms(cc: Cc, env: Env, e: Epoch, f: AckFrame)
    requires Armed(cc, env.path) && WellFormed(f)
    ensures Armed(OnAckRcvd(cc, env, e, f), env.path)
  {
    if HasNew(cc, e, f) {
      var cc2 := DetectIn(Absorb(cc, env, e, f), env, e);
      SetTimerArms(if PeerCompleted(env.path) then cc2.(pto := 0) else cc2, env);
    } else {
      QuietAckArms(cc, env, e, f);
    }
  }

  lemma OnTimeoutArms(cc: Cc, env: Env)
    ensures Armed(OnTimeout(cc, env), env.path)
  {
    var loss := LossTimeAndEpoch(cc.spaces);
    if loss.Some? {
      SetTimerArms(DetectIn(cc, env, loss.value.1), env);
    } else {
      SetTimerArms(Probe(cc, env).(pto := cc.pto + 1), env);
    }
  }

  lemma DiscardEpochArms(cc: Cc, env: Env, e: Epoch)
    ensures Armed(DiscardEpoch(cc, env, e), env.path)
  {
    var s := cc.spaces.Get(e);
    SetTimerArms(Change(cc, e, Discard(s), DiscardCalls(s)).(timer := None, pto := 0), env);
  }

  lemma NextArms(cc: Cc, env: Env, step: Event)
    requires TimerIsLossTime(cc) && AllStamped(cc.spaces) && Armed(cc, env.path)
    ensures Armed(Next(cc, env, step), env.path)
  {
    if Possible(cc, env, step) {
      match step
      case PktSent(e, p) =>
        OnPacketSentArms(cc, env, e, p);
        DiscardEpochArms(OnPacketSent(cc, env, e, p), env, Initial);
      case AckRcvd(e, f) =>
        OnAckRcvdArms(cc, env, e, f);
        DiscardEpochArms(OnAckRcvd(cc, env, e, f), env, Initial);
      case PktRcvd(_) =>
      case Tick => OnTimeoutArms(cc, env);
      case DropEpoch(e) => DiscardEpochArms(cc, env, e);
    }
  }

  /** While the path flags stay as they are, the timer is armed whenever a probe may be needed. */
  lemma {:induction false} TimerArmed(rtt: Rtt, steps: seq<(Env, Event)>, path: Path)
    requires forall i :: 0 <= i < |steps| ==> steps[i].0.path == path
    ensures Armed(Run(rtt, steps), path)
  {
    if steps != [] {
      TimerArmed(rtt, steps[..|steps| - 1], path);
      RunKeeps(rtt, steps[..|steps| - 1], 1);
      NextArms(Run(rtt, steps[..|steps| - 1]), steps[|steps| - 1].0, steps[|steps| - 1].1);
    }
  }

  /** Over every run, whatever the flags do: the timer equals the earliest loss time if there is one. */
  lemma TimerFollowsLossTime(rtt: Rtt, steps: seq<(Env, Event)>, e: Epoch)
    ensures var cc := Run(rtt, steps);
            && (cc.spaces.Get(e).lossTime.Some? ==> cc.timer.Some? && cc.timer.value <= cc.spaces.Get(e).lossTime.value)
            && (cc.spaces.Get(e).lossTime.Some? ==>
                  exists d: Epoch :: cc.spaces.Get(d).lossTime == cc.timer)
            && (Asks(cc.spaces.Get(e)) ==> cc.spaces.Get(e).lastElicit.Some?)
  {
    RunKeeps(rtt, steps, 1);
    AsksMeaning(Run(rtt, steps).spaces.Get(e));
    LossTimeIsEarliest(Run(rtt, steps).spaces);
  }

  /** A loss timeout never leaves its space with a deadline in the past. */
  lemma TimeoutAdvances(cc: Cc, env: Env)
    requires LossTimeAndEpoch(cc.spaces).Some?
    ensures var t := OnTimeout(cc, env).spaces.Get(LossTimeAndEpoch(cc.spaces).value.1).lossTime;
            t.None? || env.now <= t.value
  {
    var s := cc.spaces.Get(LossTimeAndEpoch(cc.spaces).value.1);
    DeadlineIsEarliest(s.sent, LossBound(s), ClockOf(cc, env), |s.sent|);
  }

  function Probes(need: Per<nat>): nat { need.initial + need.handshake + need.data }

  /**
   * A timeout without a loss time backs off once more and asks for one probe, in the space whose
   * probe time is earliest, or in the space that can prove the address if nothing is in flight. It
   * asks for none exactly when only unconfirmed application data is in flight.
   */
  lemma TimeoutProbes(cc: Cc, env: Env)
    requires LossTimeAndEpoch(cc.spaces).None?
    ensures var cc', r := OnTimeout(cc, env), PtoTimeAndEpoch(cc, env);
            && cc'.pto == cc.pto + 1 && SameBooks(cc, cc')
            && (r.Some? ==> cc'.need.Get(r.value.1) == cc.need.Get(r.value.1) + 1)
            && (r.Some? ==> Probes(cc'.need) == Probes(cc.need) + 1)
            && (r.None? ==> cc'.need == cc.need)
            && (r.None? <==> !NothingAsks(cc.spaces) && forall e: Epoch :: !Eligible(cc.spaces, env.path, e))
  {
    ProbedMeaning(cc.spaces, env.path);
    if !NoElicit(cc.spaces) { PtoPresentIff(cc, env); }
  }

  /** The step takes the probe branch of a timeout. */
  predicate ProbeTimeout(cc: Cc, env: Env, step: Event) {
    step.Tick? && cc.timer.Some? && cc.timer.value <= env.now && LossTimeAndEpoch(cc.spaces).None?
  }

  /** The step ends the back-off: a new acknowledgement from a validated peer, or a discarded space. */
  predicate EndsBackoff(cc: Cc, env: Env, step: Event) {
    && Possible(cc, env, step)
    && match step
       case PktSent(e, _) => e == Handshake && !env.path.isServer
       case AckRcvd(e, f) => (HasNew(cc, e, f) && Validated(env.path)) || (e == Handshake && env.path.isServer)
       case DropEpoch(_) => true
       case _ => false
  }

  /** How many probe timeouts there were since the back-off last ended. */
  function ProbesSince(rtt: Rtt, steps: seq<(Env, Event)>): nat {
    if steps == [] then 0
    else
      var before, env, step := steps[..|steps| - 1], steps[|steps| - 1].0, steps[|steps| - 1].1;
      var cc := Run(rtt, before);
      if EndsBackoff(cc, env, step) then 0
      else ProbesSince(rtt, before) + if ProbeTimeout(cc, env, step) then 1 else 0
  }

  /** Over every run the back-off counts the probe timeouts since it last ended. */
  lemma {:induction false} BackoffCount(rtt: Rtt, steps: seq<(Env, Event)>)
    ensures Run(rtt, steps).pto == ProbesSince(rtt, steps)
  {
    if steps != [] {
      var before, env, step := steps[..|steps| - 1], steps[|steps| - 1].0, steps[|steps| - 1].1;
      BackoffCount(rtt, before);
      if step.PktRcvd? { DatagramArmsIff(Run(rtt, before), env); }
    }
  }

  /**
   * A datagram that arrives is documented to arm the probe timer. Without a loss time the timer is
   * armed afterwards if and only if it was before and the amplification limit does not hold: the
   * code looks at the timer only while the limit holds, and then takes it away. It never probes.
   */
  lemma DatagramArmsIff(cc: Cc, env: Env)
    ensures var cc' := OnDatagram(cc, env);
            && cc'.pto == cc.pto && cc'.need == cc.need
            && (LossTimeAndEpoch(cc.spaces).None? ==> cc'.spaces == cc.spaces)
            && (LossTimeAndEpoch(cc.spaces).None? ==> (cc'.timer.Some? <==> !env.path.atLimit && cc.timer.Some?))
  {
  }

  // ---------------------------------------------------------------- against the documentation

  lemma {:induction false} Pow2Grows(n: nat)
    ensures Pow2(n) >= 1 && (Pow2(n) == 1 <==> n == 0)
  {
    if n > 0 { Pow2Grows(n - 1); }
  }

  lemma TimesOnly(a: nat, m: nat, k: nat)
    requires 1 <= k
    ensures a + m * k == (a + m) * k <==> k == 1 || a == 0
  {
    assert (a + m) * k == a * k + m * k;
    if a > 0 && k > 1 { assert a * k >= a * 2; }
  }

  /** The documented probe period doubles as a whole; the code agrees exactly without back-off or round trip time. */
  lemma WholePeriodDoublesIff(rtt: Rtt, n: nat)
    ensures BasePto(rtt, n) == (rtt.smoothed + Max(4 * rtt.rttvar, GRANULARITY)) * Pow2(n)
            <==> n == 0 || rtt.smoothed == 0
  {
    Pow2Grows(n);
    TimesOnly(rtt.smoothed, Max(4 * rtt.rttvar, GRANULARITY), Pow2(n));
  }

  /** After one timeout on the initial estimate of 33 ms the code waits 165 ms, the documented formula 198 ms. */
  lemma WholePeriodFails()
    ensures BasePto(INITIAL_RTT, 1) == 165000
    ensures (INITIAL_RTT.smoothed + Max(4 * INITIAL_RTT.rttvar, GRANULARITY)) * Pow2(1) == 198000
  {
    assert Pow2(1) == 2 * Pow2(0);
  }

  /** A loss timeout reports a loss, as documented, if and only if a tracked packet of its space is overdue. */
  lemma TimeoutFindsLossIff(cc: Cc, env: Env)
    requires LossTimeAndEpoch(cc.spaces).Some?
    requires Sorted(cc.spaces.Get(LossTimeAndEpoch(cc.spaces).value.1).sent)
    ensures var s := cc.spaces.Get(LossTimeAndEpoch(cc.spaces).value.1);
            OnTimeout(cc, env).trace != cc.trace
            <==> exists i: nat :: Overdue(s, Clock(env.now, cc.rtt.lossDelay, 3), i)
  {
    var s, c := cc.spaces.Get(LossTimeAndEpoch(cc.spaces).value.1), ClockOf(cc, env);
    FindsLossIff(s, c);
    assert OnTimeout(cc, env).trace == cc.trace + DetectCalls(s, c);
  }

  /** One packet in flight, nothing acknowledged: what detection reports. */
  lemma LonePacket(s: Space, c: Clock, p: SentPacket)
    requires s.sent == [p] && s.largestAcked.None? && p.state == Inflight && 0 < c.threshold
    requires p.timeSent < c.now - c.lossDelay
    ensures DetectCalls(s, c) == if p.pn == 0 then [PacketsLost([p.(state := Retransmitted)], false, c.now)] else []
  {
    var la := LossBound(s);
    assert LostUpTo(s.sent, la, c, 0) == [];
    assert IsLost(s.sent, 0, la, c) <==> p.pn == 0;
    assert LostUpTo(s.sent, la, c, 1) == if p.pn == 0 then [p.(state := Retransmitted)] else [];
    assert forall i: nat :: i > 0 ==> !IsLost(s.sent, i, la, c);
  }

  lemma FirstSend(rtt: Rtt, env: Env, e: Epoch, p: SentPacket)
    requires p.state == Inflight && p.timeSent == env.now && p.countForCc && (e == Handshake ==> env.path.isServer)
    ensures var cc := Run(rtt, [(env, PktSent(e, p))]);
            && cc.spaces.Get(e).sent == [p] && cc.spaces.Get(e).largestAcked.None? && cc.rtt == rtt
            && LossTimeAndEpoch(cc.spaces) == Some((env.now + rtt.lossDelay, e))
            && (forall d: Epoch :: d != e ==> cc.spaces.Get(d).lossTime.None?)
            && cc.timer == Some(env.now + rtt.lossDelay)
            && cc.trace == [PacketSent(p)]
  {
    var step := (env, PktSent(e, p));
    assert [step][..0] == [];
    assert Run(rtt, []) == New(rtt);
    OnPacketSentShape(New(rtt), env, e, p);
    assert Run(rtt, [step]) == OnPacketSent(New(rtt), env, e, p);
  }

  /**
   * The loss time given on sending makes the first timeout a loss timeout although nothing has been
   * acknowledged. It reports packet zero as lost, against section 6.1 of RFC 9002, and for every
   * other packet it reports nothing, against the assertion documented for it.
   */
  lemma FirstTimeout(rtt: Rtt, env: Env, later: Env, e: Epoch, p: SentPacket)
    requires p.state == Inflight && p.timeSent == env.now && p.countForCc && (e == Handshake ==> env.path.isServer)
    requires env.now + rtt.lossDelay < later.now
    ensures var cc := Run(rtt, [(env, PktSent(e, p))]);
            LossTimeAndEpoch(cc.spaces).Some? && cc.timer.Some? && cc.timer.value <= later.now
    ensures Run(rtt, [(env, PktSent(e, p)), (later, Tick)]).trace
         == [PacketSent(p)] + if p.pn == 0 then [PacketsLost([p.(state := Retransmitted)], false, later.now)] else []
  {
    var first, both := [(env, PktSent(e, p))], [(env, PktSent(e, p)), (later, Tick)];
    var cc := Run(rtt, first);
    FirstSend(rtt, env, e, p);
    assert both[..1] == first;
    assert Run(rtt, both) == OnTimeout(cc, later);
    LonePacket(cc.spaces.Get(e), ClockOf(cc, later), p);
  }

  lemma LonePacketStays(s: Space, c: Clock, p: SentPacket)
    requires s.sent == [p] && s.largestAcked.None? && 0 < p.pn
    ensures Detect(s, c).sent == [p] && Detect(s, c).lossTime.None?
  {
    var la := LossBound(s);
    assert !IsSuspect(s.sent, 0, la);
    assert DeadlineUpTo(s.sent, la, c, 1) == DeadlineUpTo(s.sent, la, c, 0) == None;
    assert LostMarkedUpTo(s.sent, la, c, 1)[0] == p;
  }

  /** With that packet's the only loss time, a timeout at the limit takes the timer away. */
  lemma LoneTimeout(cc: Cc, later: Env, e: Epoch, p: SentPacket)
    requires cc.spaces.Get(e).sent == [p] && cc.spaces.Get(e).largestAcked.None? && 0 < p.pn && later.path.atLimit
    requires LossTimeAndEpoch(cc.spaces).Some? && LossTimeAndEpoch(cc.spaces).value.1 == e
    requires forall d: Epoch :: d != e ==> cc.spaces.Get(d).lossTime.None?
    ensures var cc' := OnTimeout(cc, later);
            cc'.timer.None? && LossTimeAndEpoch(cc'.spaces).None? && cc'.spaces.Get(e).sent == [p]
  {
    LonePacketStays(cc.spaces.Get(e), ClockOf(cc, later), p);
    forall d: Epoch ensures DetectIn(cc, later, e).spaces.Get(d).lossTime.None? {
      if d != e { assert DetectIn(cc, later, e).spaces.Get(d) == cc.spaces.Get(d); }
    }
    LossTimeIsEarliest(DetectIn(cc, later, e).spaces);
  }

  /**
   * The first packet a controller sends, in whatever space, times out while the limit holds: the
   * timer is gone and the packet still in flight.
   */
  lemma TimedOutAtLimit(rtt: Rtt, env: Env, later: Env, e: Epoch, p: SentPacket)
    requires p.state == Inflight && p.timeSent == env.now && p.countForCc && 0 < p.pn
    requires e == Handshake ==> env.path.isServer
    requires env.now + rtt.lossDelay < later.now && later.path.atLimit
    ensures var cc := Run(rtt, [(env, PktSent(e, p)), (later, Tick)]);
            cc.timer.None? && LossTimeAndEpoch(cc.spaces).None? && cc.spaces.Get(e).sent == [p]
  {
    var first, both := [(env, PktSent(e, p))], [(env, PktSent(e, p)), (later, Tick)];
    FirstSend(rtt, env, e, p);
    assert both[..1] == first;
    assert Run(rtt, both) == OnTimeout(Run(rtt, first), later);
    LoneTimeout(Run(rtt, first), later, e, p);
  }

  /** When the limit is lifted and a datagram arrives, the timer stays off with a packet to probe for. */
  lemma DatagramDoesNotArm(rtt: Rtt, env: Env, later: Env, lifted: Env, e: Epoch, p: SentPacket)
    requires p.state == Inflight && p.timeSent == env.now && p.countForCc && p.ackEliciting && 0 < p.pn
    requires (e == Handshake ==> env.path.isServer) && (e == Data ==> lifted.path.confirmed)
    requires env.now + rtt.lossDelay < later.now && later.path.atLimit && !lifted.path.atLimit
    ensures !Armed(Run(rtt, [(env, PktSent(e, p)), (later, Tick), (lifted, PktRcvd(true))]), lifted.path)
  {
    var two := [(env, PktSent(e, p)), (later, Tick)];
    var three := [(env, PktSent(e, p)), (later, Tick), (lifted, PktRcvd(true))];
    TimedOutAtLimit(rtt, env, later, e, p);
    assert three[..2] == two;
    var cc := Run(rtt, two);
    assert Run(rtt, three) == cc;
    assert p in cc.spaces.Get(e).sent;
    assert Eligible(cc.spaces, lifted.path, e);
  }

  /** A first window below one datagram fails on the first loss. */
  lemma FirstLossFails(mds: nat, p: SentPacket, now: int)
    requires Reno.New(mds).cwnd < mds && p.countForCc
    ensures RenoOf([PacketSent(p)] + [PacketsLost([p.(state := Retransmitted)], false, now)], mds).None?
  {
    var lost := [p.(state := Retransmitted)];
    var trace := [PacketSent(p)] + [PacketsLost(lost, false, now)];
    Reno.SingleCall(Reno.New(mds), mds, PacketSent(p));
    assert trace[..1] == [PacketSent(p)];
    assert lost[..0] == [] && Reno.LastLoss(lost).Some?;
  }

  /** No run of the controller makes an unchecked operation of the algorithm fail. */
  ghost predicate NeverFails(mds: nat) {
    forall rtt, steps :: RenoOf(Run(rtt, steps).trace, mds).Some?
  }

  /** That is so exactly when the first window, computed in 16 bits, is at least one datagram. */
  lemma NeverFailsIff(mds: nat)
    requires 0 < mds < 0x1_0000
    ensures NeverFails(mds) <==> mds <= mds * 10 % 0x1_0000 && mds < 0x8000
  {
    Reno.StartsAtFloorIff(mds);
    if Reno.StartsAtFloor(mds) {
      forall rtt, steps ensures RenoOf(Run(rtt, steps).trace, mds).Some? { BytesInFlight(rtt, steps, mds); }
    } else {
      var p, path := SentPacket(0, 0, true, true, 1, Inflight), Path(true, false, true, true, true);
      var env, later := Env(0, path, 0, INITIAL_RTT), Env(37126, path, 0, INITIAL_RTT);
      FirstTimeout(INITIAL_RTT, env, later, Data, p);
      var steps := [(env, PktSent(Data, p)), (later, Tick)];
      FirstLossFails(mds, p, 37126);
      assert RenoOf(Run(INITIAL_RTT, steps).trace, mds).None?;
    }
  }

  // ---------------------------------------------------------------- the records of the spaces are the calls made

  /** The calls made are, taken together, the calls recorded for the three spaces. */
  ghost predicate Recorded(cc: Cc) {
    multiset(cc.trace) == multiset(cc.told.initial) + multiset(cc.told.handshake) + multiset(cc.told.data)
  }

  lemma ChangeRecords(cc: Cc, e: Epoch, s: Space, calls: seq<Callback>)
    requires Recorded(cc)
    ensures Recorded(Change(cc, e, s, calls))
  {
  }

  lemma AbsorbRecords(cc: Cc, env: Env, e: Epoch, f: AckFrame)
    requires Recorded(cc) && WellFormed(f)
    ensures Recorded(Absorb(cc, env, e, f))
  {
    var s := UpdateLargest(cc.spaces.Get(e), f.largest);
    var cc1 := Change(cc, e, OnAck(s, Ranges(f)), AckCalls(s, Ranges(f)));
    var result := AckResult(Newly(s.sent, Ranges(f)));
    ChangeRecords(cc, e, OnAck(s, Ranges(f)), AckCalls(s, Ranges(f)));
    if result.Some? && f.ecn.Some? {
      var cc2 := if result.value.largest == f.largest && result.value.includeAckEliciting
      then cc1.(rtt := env.sample) else cc1;
      ChangeRecords(cc2, e, cc2.spaces.Get(e), [Ecn(Index(e), f.ecn.value.ce, result.value.timeSent, env.now)]);
    }
  }

  lemma OnAckRcvdRecords(cc: Cc, env: Env, e: Epoch, f: AckFrame)
    requires Recorded(cc) && WellFormed(f)
    ensures Recorded(OnAckRcvd(cc, env, e, f))
  {
    var cc1 := Absorb(cc, env, e, f);
    AbsorbRecords(cc, env, e, f);
    var s, c := cc1.spaces.Get(e), ClockOf(cc1, env);
    ChangeRecords(cc1, e, Detect(s, c), DetectCalls(s, c));
  }

  lemma OnTimeoutRecords(cc: Cc, env: Env)
    requires Recorded(cc)
    ensures Recorded(OnTimeout(cc, env))
  {
    var loss := LossTimeAndEpoch(cc.spaces);
    if loss.Some? {
      var s, c := cc.spaces.Get(loss.value.1), ClockOf(cc, env);
      ChangeRecords(cc, loss.value.1, Detect(s, c), DetectCalls(s, c));
    }
  }

  lemma OnPacketSentRecords(cc: Cc, env: Env, e: Epoch, p: SentPacket)
    requires Recorded(cc)
    ensures Recorded(OnPacketSent(cc, env, e, p))
  {
    OnPacketSentShape(cc, env, e, p);
    ChangeRecords(cc, e, cc.spaces.Get(e), SentCalls(p));
  }

  lemma DiscardEpochRecords(cc: Cc, env: Env, e: Epoch)
    requires Recorded(cc)
    ensures Recorded(DiscardEpoch(cc, env, e))
  {
    var s := cc.spaces.Get(e);
    ChangeRecords(cc, e, Discard(s), DiscardCalls(s));
  }

  lemma NextRecords(cc: Cc, env: Env, step: Event)
    requires Recorded(cc)
    ensures Recorded(Next(cc, env, step))
  {
    if Possible(cc, env, step) {
      match step
      case PktSent(e, p) =>
        OnPacketSentRecords(cc, env, e, p);
        DiscardEpochRecords(OnPacketSent(cc, env, e, p), env, Initial);
      case AckRcvd(e, f) =>
        OnAckRcvdRecords(cc, env, e, f);
        DiscardEpochRecords(OnAckRcvd(cc, env, e, f), env, Initial);
      case PktRcvd(_) => OnTimeoutRecords(SetTimer(cc, env), env);
      case Tick => OnTimeoutRecords(cc, env);
      case DropEpoch(e) => DiscardEpochRecords(cc, env, e);
    }
  }

  /** Over every run the histories of the spaces are made of exactly the calls the algorithm received. */
  lemma {:induction false} ToldIsTrace(rtt: Rtt, steps: seq<(Env, Event)>)
    ensures Recorded(Run(rtt, steps))
  {
    if steps != [] {
      ToldIsTrace(rtt, steps[..|steps| - 1]);
      NextRecords(Run(rtt, steps[..|steps| - 1]), steps[|steps| - 1].0, steps[|steps| - 1].1);
    }
  }
}
