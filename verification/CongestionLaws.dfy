/**
 * What the controller's fields mean over every run, told from the calls made and the packets sent
 * and acknowledged, not from the fields themselves.
 */
module CongestionLaws {
  import opened Prelude
  import opened AckFrames
  import opened PacketSpec
  import opened PacketProofs
  import opened CongestionSpec
  import opened CongestionProofs

  // ---------------------------------------------------------------- the largest acknowledged number

  /** Step `i` delivers a frame to the space that acknowledges up to `pn`. */
  predicate Acknowledges(steps: seq<(Env, Event)>, i: nat, e: Epoch, pn: nat) {
    && i < |steps| && steps[i].1.AckRcvd? && steps[i].1.epoch == e
    && WellFormed(steps[i].1.frame) && steps[i].1.frame.largest == pn
  }

  /** `la` is the largest number any frame delivered to the space acknowledges, absent without a frame. */
  ghost predicate IsLargest(steps: seq<(Env, Event)>, e: Epoch, la: Option<nat>) {
    && (la.Some? ==> exists i: nat :: Acknowledges(steps, i, e, la.value))
    && (forall i: nat, pn: nat :: Acknowledges(steps, i, e, pn) ==> la.Some? && pn <= la.value)
  }

  /** What one step makes of the number. */
  function Raised(la: Option<nat>, e: Epoch, step: Event): Option<nat> {
    if step.AckRcvd? && step.epoch == e && WellFormed(step.frame)
    then Some(if la.Some? && step.frame.largest < la.value then la.value else step.frame.largest) else la
  }

  /** Neither mark of the space moves. */
  predicate SameMarks(cc: Cc, cc': Cc, e: Epoch) {
    && cc'.spaces.Get(e).largestAcked == cc.spaces.Get(e).largestAcked
    && cc'.spaces.Get(e).lastElicit == cc.spaces.Get(e).lastElicit
  }

  lemma DetectInMarks(cc: Cc, env: Env, d: Epoch, e: Epoch)
    ensures SameMarks(cc, DetectIn(cc, env, d), e)
  {
  }

  lemma AbsorbMarks(cc: Cc, env: Env, d: Epoch, f: AckFrame, e: Epoch)
    requires WellFormed(f)
    ensures var cc' := Absorb(cc, env, d, f);
            && cc'.spaces.Get(e).largestAcked == Raised(cc.spaces.Get(e).largestAcked, e, AckRcvd(d, f))
            && cc'.spaces.Get(e).lastElicit == cc.spaces.Get(e).lastElicit
  {
    LargestIsMaximum(cc.spaces.Get(d), f.largest);
    var s := UpdateLargest(cc.spaces.Get(d), f.largest);
    assert OnAck(s, Ranges(f)).largestAcked == s.largestAcked && OnAck(s, Ranges(f)).lastElicit == s.lastElicit;
  }

  lemma OnAckRcvdMarks(cc: Cc, env: Env, d: Epoch, f: AckFrame, e: Epoch)
    requires WellFormed(f)
    ensures var cc' := OnAckRcvd(cc, env, d, f);
            && cc'.spaces.Get(e).largestAcked == Raised(cc.spaces.Get(e).largestAcked, e, AckRcvd(d, f))
            && cc'.spaces.Get(e).lastElicit == cc.spaces.Get(e).lastElicit
  {
    AbsorbMarks(cc, env, d, f, e);
    DetectInMarks(Absorb(cc, env, d, f), env, d, e);
  }

  lemma OnTimeoutMarks(cc: Cc, env: Env, e: Epoch)
    ensures SameMarks(cc, OnTimeout(cc, env), e)
  {
    var loss := LossTimeAndEpoch(cc.spaces);
    if loss.Some? { DetectInMarks(cc, env, loss.value.1, e); }
  }

  lemma OnPacketSentMarks(cc: Cc, env: Env, d: Epoch, p: SentPacket, e: Epoch)
    requires Possible(cc, env, PktSent(d, p))
    ensures var cc' := OnPacketSent(cc, env, d, p);
            && cc'.spaces.Get(e).largestAcked == cc.spaces.Get(e).largestAcked
            && cc'.spaces.Get(e).lastElicit
               == if d == e && p.ackEliciting then Some(env.now) else cc.spaces.Get(e).lastElicit
  {
    OnPacketSentShape(cc, env, d, p);
  }

  lemma DiscardEpochMarks(cc: Cc, env: Env, d: Epoch, e: Epoch)
    ensures var cc' := DiscardEpoch(cc, env, d);
            && cc'.spaces.Get(e).largestAcked == cc.spaces.Get(e).largestAcked
            && cc'.spaces.Get(e).lastElicit == if d == e then None else cc.spaces.Get(e).lastElicit
  {
  }

  /** The step discards the space: a client's on sending, a server's on hearing of, its first Handshake packet. */
  predicate Discards(env: Env, step: Event, e: Epoch) {
    match step
    case PktSent(d, _) => d == Handshake && !env.path.isServer && e == Initial
    case AckRcvd(d, _) => d == Handshake && env.path.isServer && e == Initial
    case DropEpoch(d) => d == e
    case _ => false
  }

  /** One step, mark by mark. */
  lemma NextMarks(cc: Cc, env: Env, step: Event, e: Epoch)
    requires Possible(cc, env, step)
    ensures var cc' := Next(cc, env, step);
            && cc'.spaces.Get(e).largestAcked == Raised(cc.spaces.Get(e).largestAcked, e, step)
            && cc'.spaces.Get(e).lastElicit
               == if Discards(env, step, e) then None
                  else if step.PktSent? && step.epoch == e && step.packet.ackEliciting then Some(env.now)
                  else cc.spaces.Get(e).lastElicit
  {
    match step
    case PktSent(d, p) =>
      OnPacketSentMarks(cc, env, d, p, e);
      DiscardEpochMarks(OnPacketSent(cc, env, d, p), env, Initial, e);
    case AckRcvd(d, f) =>
      OnAckRcvdMarks(cc, env, d, f, e);
      DiscardEpochMarks(OnAckRcvd(cc, env, d, f), env, Initial, e);
    case PktRcvd(_) => OnTimeoutMarks(SetTimer(cc, env), env, e);
    case Tick => OnTimeoutMarks(cc, env, e);
    case DropEpoch(d) => DiscardEpochMarks(cc, env, d, e);
  }

  lemma LargestSnoc(steps: seq<(Env, Event)>, e: Epoch, la: Option<nat>)
    requires steps != [] && IsLargest(steps[..|steps| - 1], e, la)
    ensures IsLargest(steps, e, Raised(la, e, steps[|steps| - 1].1))
  {
    var before, n := steps[..|steps| - 1], |steps| - 1;
    forall i: nat, pn: nat ensures Acknowledges(before, i, e, pn) <==> i < n && Acknowledges(steps, i, e, pn) {}
    if la.Some? {
      var i: nat :| Acknowledges(before, i, e, la.value);
      assert Acknowledges(steps, i, e, la.value);
    }
    var step := steps[n].1;
    if step.AckRcvd? && step.epoch == e && WellFormed(step.frame) {
      assert Acknowledges(steps, n, e, step.frame.largest);
    }
  }

  /** Over every run the field holds the largest number acknowledged to the space, whatever was discarded since. */
  lemma {:induction false} LargestOverRun(rtt: Rtt, steps: seq<(Env, Event)>, e: Epoch)
    ensures IsLargest(steps, e, Run(rtt, steps).spaces.Get(e).largestAcked)
  {
    if steps != [] {
      var before := steps[..|steps| - 1];
      LargestOverRun(rtt, before, e);
      var env, step := steps[|steps| - 1].0, steps[|steps| - 1].1;
      if Possible(Run(rtt, before), env, step) { NextMarks(Run(rtt, before), env, step, e); }
      LargestSnoc(steps, e, Run(rtt, before).spaces.Get(e).largestAcked);
    }
  }

  lemma LargestIsUnique(steps: seq<(Env, Event)>, e: Epoch, a: nat, b: Option<nat>)
    requires IsLargest(steps, e, Some(a)) && IsLargest(steps, e, b)
    ensures b == Some(a)
  {
    var i: nat :| Acknowledges(steps, i, e, a);
    var j: nat :| Acknowledges(steps, j, e, b.value);
  }

  lemma SortedOverRun(rtt: Rtt, steps: seq<(Env, Event)>, e: Epoch)
    ensures Sorted(Run(rtt, steps).spaces.Get(e).sent)
  {
    var cc := Run(rtt, steps);
    RunKeeps(rtt, steps, 1);
    assert Lives(cc.spaces.Get(e).sent, cc.log.Get(e), cc.told.Get(e));
  }

  /**
   * Over every run, a packet of a space would be reported lost, at any time, if and only if it is
   * in flight, not above the largest number acknowledged to the space, and sent more than the loss
   * delay ago or followed by three tracked packets up to that number.
   */
  lemma LossOverRun(rtt: Rtt, steps: seq<(Env, Event)>, e: Epoch, la: nat, env: Env, i: nat)
    requires IsLargest(steps, e, Some(la)) && i < |Run(rtt, steps).spaces.Get(e).sent|
    ensures var cc := Run(rtt, steps);
            var sent := cc.spaces.Get(e).sent;
            ReportsLost(DetectCalls(cc.spaces.Get(e), ClockOf(cc, env)), sent[i].pn) <==>
            && sent[i].state == Inflight && sent[i].pn <= la
            && (sent[i].timeSent < env.now - cc.rtt.lossDelay || |set j | i < j < |sent| && sent[j].pn <= la| >= 3)
  {
    var cc := Run(rtt, steps);
    SortedOverRun(rtt, steps, e);
    LargestOverRun(rtt, steps, e);
    LargestIsUnique(steps, e, la, cc.spaces.Get(e).largestAcked);
    LossIsExact(cc.spaces.Get(e), ClockOf(cc, env), i);
  }

  // ---------------------------------------------------------------- the last ack-eliciting send

  /** When the last packet that asks for an acknowledgement was sent in the space since it was last discarded. */
  function LastAsked(rtt: Rtt, steps: seq<(Env, Event)>, e: Epoch): Option<int> {
    if steps == [] then None
    else
      var before, env, step := steps[..|steps| - 1], steps[|steps| - 1].0, steps[|steps| - 1].1;
      if !Possible(Run(rtt, before), env, step) then LastAsked(rtt, before, e)
      else if Discards(env, step, e) then None
      else if step.PktSent? && step.epoch == e && step.packet.ackEliciting then Some(env.now)
      else LastAsked(rtt, before, e)
  }

  /** Over every run the field holds that time. */
  lemma {:induction false} LastAskedOverRun(rtt: Rtt, steps: seq<(Env, Event)>, e: Epoch)
    ensures Run(rtt, steps).spaces.Get(e).lastElicit == LastAsked(rtt, steps, e)
  {
    if steps != [] {
      var before, env, step := steps[..|steps| - 1], steps[|steps| - 1].0, steps[|steps| - 1].1;
      LastAskedOverRun(rtt, before, e);
      if Possible(Run(rtt, before), env, step) { NextMarks(Run(rtt, before), env, step, e); }
    }
  }

  // ---------------------------------------------------------------- no probe comes early

  lemma DoubleProduct(a: int, b: int)
    ensures a * (2 * b) == 2 * (a * b)
  {
  }

  /** The backed-off part doubles with each probe timeout, the round trip time does not. */
  lemma PtoBacksOff(rtt: Rtt, n: nat)
    ensures BasePto(rtt, 0) == rtt.smoothed + Max(4 * rtt.rttvar, 1000)
    ensures BasePto(rtt, n + 1) - rtt.smoothed == 2 * (BasePto(rtt, n) - rtt.smoothed)
    ensures Pow2(0) == 1 && Pow2(n + 1) == 2 * Pow2(n)
  {
    DoubleProduct(Max(4 * rtt.rttvar, 1000), Pow2(n));
  }

  /** The application waits longer than an equal Handshake space by exactly the backed-off delay. */
  lemma DataWaitsLonger(cc: Cc, env: Env)
    requires AllStamped(cc.spaces) && env.path.confirmed && Asks(cc.spaces.data) && Asks(cc.spaces.handshake)
    requires cc.spaces.data.lastElicit == cc.spaces.handshake.lastElicit
    ensures PtoOf(cc, env, Data).Some? && PtoOf(cc, env, Handshake).Some?
    ensures PtoOf(cc, env, Data).value.0 == PtoOf(cc, env, Handshake).value.0 + env.maxAckDelay * Pow2(cc.pto)
  {
    AsksMeaning(cc.spaces.data);
    AsksMeaning(cc.spaces.handshake);
  }

  /**
   * A probe timer is not before the due time of some space that asks; the application's counts only
   * if the handshake has been confirmed.
   */
  ghost predicate NotEarly(cc: Cc, maxAckDelay: nat, confirmed: bool) {
    cc.timer.Some? && LossTimeAndEpoch(cc.spaces).None? && !NothingAsks(cc.spaces) ==>
      exists e: Epoch ::
        && Asks(cc.spaces.Get(e)) && (e == Data ==> confirmed)
        && cc.spaces.Get(e).lastElicit.Some? && Due(cc, maxAckDelay, e) <= cc.timer.value
  }

  lemma SetTimerNotEarly(cc: Cc, env: Env, confirmed: bool)
    requires AllStamped(cc.spaces) && (env.path.confirmed ==> confirmed)
    ensures NotEarly(SetTimer(cc, env), env.maxAckDelay, confirmed)
  {
    var cc' := SetTimer(cc, env);
    ProbedMeaning(cc.spaces, env.path);
    if cc'.timer.Some? && LossTimeAndEpoch(cc.spaces).None? && !NothingAsks(cc.spaces) {
      PtoIsEarliest(cc, env);
      var e := PtoTimeAndEpoch(cc, env).value.1;
      assert Due(cc', env.maxAckDelay, e) == Due(cc, env.maxAckDelay, e);
      assert Asks(cc'.spaces.Get(e));
    }
  }

  /** Nothing that matters to the due times has changed. */
  ghost predicate SameDue(cc: Cc, cc': Cc) {
    && cc'.timer == cc.timer && cc'.rtt == cc.rtt && cc'.pto == cc.pto
    && LossTimeAndEpoch(cc'.spaces) == LossTimeAndEpoch(cc.spaces)
    && forall e: Epoch :: cc'.spaces.Get(e).lastElicit == cc.spaces.Get(e).lastElicit
                          && (Asks(cc'.spaces.Get(e)) <==> Asks(cc.spaces.Get(e)))
  }

  lemma SameDueNotEarly(cc: Cc, cc': Cc, maxAckDelay: nat, confirmed: bool)
    requires SameDue(cc, cc') && NotEarly(cc, maxAckDelay, confirmed)
    ensures NotEarly(cc', maxAckDelay, confirmed)
  {
    if cc'.timer.Some? && LossTimeAndEpoch(cc'.spaces).None? && !NothingAsks(cc'.spaces) {
      var e: Epoch :| Asks(cc'.spaces.Get(e));
      assert Asks(cc.spaces.Get(e));
      var d: Epoch :| Asks(cc.spaces.Get(d)) && (d == Data ==> confirmed)
                      && cc.spaces.Get(d).lastElicit.Some? && Due(cc, maxAckDelay, d) <= cc.timer.value;
      assert Asks(cc'.spaces.Get(d)) && Due(cc', maxAckDelay, d) == Due(cc, maxAckDelay, d);
    }
  }

  lemma QuietAckAsks(s: Space, rs: seq<Range>)
    requires Newly(s.sent, rs) == []
    ensures Asks(OnAck(s, rs)) <==> Asks(s)
  {
    NewlyMembers(s.sent, rs, 0);
    forall i | 0 <= i < |s.sent| ensures !IsNew(s.sent[i], rs) { assert s.sent[i] in s.sent; }
    assert Marked(s.sent, rs) == s.sent;
    var k := DropDoneSuffix(s.sent);
    if p :| p in s.sent && p.ackEliciting && p.state == Inflight {
      var i :| 0 <= i < |s.sent| && s.sent[i] == p;
      assert i >= k && s.sent[k..][i - k] == p;
    }
  }

  lemma QuietAckSameDue(cc: Cc, env: Env, e: Epoch, f: AckFrame)
    requires WellFormed(f) && !HasNew(cc, e, f)
    ensures SameDue(cc, Absorb(cc, env, e, f))
  {
    QuietAck(cc, env, e, f);
    QuietAckAsks(UpdateLargest(cc.spaces.Get(e), f.largest), Ranges(f));
  }

  lemma UncountedSendSameDue(cc: Cc, env: Env, e: Epoch, p: SentPacket)
    requires Possible(cc, env, PktSent(e, p)) && !p.countForCc
    ensures SameDue(cc, OnPacketSent(cc, env, e, p))
  {
    var s, s' := cc.spaces.Get(e), OnPacketSent(cc, env, e, p).spaces.Get(e);
    assert forall q :: q in s'.sent <==> q in s.sent || q == p;
  }

  lemma OnPacketSentNotEarly(cc: Cc, env: Env, e: Epoch, p: SentPacket, confirmed: bool)
    requires Possible(cc, env, PktSent(e, p)) && NotEarly(cc, env.maxAckDelay, confirmed)
    ensures NotEarly(OnPacketSent(cc, env, e, p), env.maxAckDelay, confirmed)
  {
    if p.countForCc {
      OnPacketSentShape(cc, env, e, p);
      LossTimeIsEarliest(OnPacketSent(cc, env, e, p).spaces);
      assert OnPacketSent(cc, env, e, p).spaces.Get(e).lossTime.Some?;
    } else {
      UncountedSendSameDue(cc, env, e, p);
      SameDueNotEarly(cc, OnPacketSent(cc, env, e, p), env.maxAckDelay, confirmed);
    }
  }

  lemma NewAckNotEarly(cc1: Cc, env: Env, e: Epoch, confirmed: bool)
    requires AllStamped(cc1.spaces) && (env.path.confirmed ==> confirmed)
    ensures var cc2 := DetectIn(cc1, env, e);
            NotEarly(SetTimer(if PeerCompleted(env.path) then cc2.(pto := 0) else cc2, env), env.maxAckDelay, confirmed)
  {
    var cc2 := DetectIn(cc1, env, e);
    DetectInStamps(cc1, env, e);
    SetTimerNotEarly(if PeerCompleted(env.path) then cc2.(pto := 0) else cc2, env, confirmed);
  }

  lemma OnAckRcvdNotEarly(cc: Cc, env: Env, e: Epoch, f: AckFrame, confirmed: bool)
    requires Inv(cc, 1) && WellFormed(f)
    requires NotEarly(cc, env.maxAckDelay, confirmed) && (env.path.confirmed ==> confirmed)
    ensures NotEarly(OnAckRcvd(cc, env, e, f), env.maxAckDelay, confirmed)
  {
    if HasNew(cc, e, f) {
      AbsorbKeeps(cc, env, e, f, 1);
      NewAckNotEarly(Absorb(cc, env, e, f), env, e, confirmed);
    } else {
      QuietAckSameDue(cc, env, e, f);
      SameDueNotEarly(cc, Absorb(cc, env, e, f), env.maxAckDelay, confirmed);
    }
  }

  lemma DetectInNotEarly(cc: Cc, env: Env, e: Epoch, confirmed: bool)
    requires AllStamped(cc.spaces) && (env.path.confirmed ==> confirmed)
    ensures NotEarly(SetTimer(DetectIn(cc, env, e), env), env.maxAckDelay, confirmed)
  {
    DetectInStamps(cc, env, e);
    SetTimerNotEarly(DetectIn(cc, env, e), env, confirmed);
  }

  lemma ProbedNotEarly(cc: Cc, env: Env, confirmed: bool)
    requires AllStamped(cc.spaces) && (env.path.confirmed ==> confirmed)
    ensures NotEarly(SetTimer(Probe(cc, env).(pto := cc.pto + 1), env), env.maxAckDelay, confirmed)
  {
    var cc1 := Probe(cc, env).(pto := cc.pto + 1);
    assert cc1.spaces == cc.spaces;
    SetTimerNotEarly(cc1, env, confirmed);
  }

  lemma OnTimeoutNotEarly(cc: Cc, env: Env, confirmed: bool)
    requires AllStamped(cc.spaces) && (env.path.confirmed ==> confirmed)
    ensures NotEarly(OnTimeout(cc, env), env.maxAckDelay, confirmed)
  {
    var loss := LossTimeAndEpoch(cc.spaces);
    if loss.Some? {
      assert OnTimeout(cc, env) == SetTimer(DetectIn(cc, env, loss.value.1), env);
      DetectInNotEarly(cc, env, loss.value.1, confirmed);
    } else {
      assert OnTimeout(cc, env) == SetTimer(Probe(cc, env).(pto := cc.pto + 1), env);
      ProbedNotEarly(cc, env, confirmed);
    }
  }

  lemma DiscardEpochNotEarly(cc: Cc, env: Env, e: Epoch, confirmed: bool)
    requires AllStamped(cc.spaces) && (env.path.confirmed ==> confirmed)
    ensures NotEarly(DiscardEpoch(cc, env, e), env.maxAckDelay, confirmed)
  {
    var s := cc.spaces.Get(e);
    SetTimerNotEarly(Change(cc, e, Discard(s), DiscardCalls(s)).(timer := None, pto := 0), env, confirmed);
  }

  lemma NextNotEarly(cc: Cc, env: Env, step: Event, confirmed: bool)
    requires Inv(cc, 1) && (env.path.confirmed ==> confirmed) && NotEarly(cc, env.maxAckDelay, confirmed)
    ensures NotEarly(Next(cc, env, step), env.maxAckDelay, confirmed)
  {
    if Possible(cc, env, step) {
      match step
      case PktSent(e, p) =>
        OnPacketSentNotEarly(cc, env, e, p, confirmed);
        OnPacketSentKeeps(cc, env, e, p, 1);
        DiscardEpochNotEarly(OnPacketSent(cc, env, e, p), env, Initial, confirmed);
      case AckRcvd(e, f) =>
        OnAckRcvdNotEarly(cc, env, e, f, confirmed);
        OnAckRcvdKeeps(cc, env, e, f, 1);
        DiscardEpochNotEarly(OnAckRcvd(cc, env, e, f), env, Initial, confirmed);
      case PktRcvd(_) =>
        SetTimerNotEarly(cc, env, confirmed);
        SettledByTimer(cc, cc, env, 1);
        OnTimeoutNotEarly(SetTimer(cc, env), env, confirmed);
      case Tick => OnTimeoutNotEarly(cc, env, confirmed);
      case DropEpoch(e) => DiscardEpochNotEarly(cc, env, e, confirmed);
    }
  }

  lemma {:induction false} RunNotEarly(rtt: Rtt, steps: seq<(Env, Event)>, maxAckDelay: nat, confirmed: bool)
    requires forall i :: 0 <= i < |steps| ==>
               steps[i].0.maxAckDelay == maxAckDelay && (steps[i].0.path.confirmed ==> confirmed)
    ensures NotEarly(Run(rtt, steps), maxAckDelay, confirmed)
  {
    if steps != [] {
      RunNotEarly(rtt, steps[..|steps| - 1], maxAckDelay, confirmed);
      RunKeeps(rtt, steps[..|steps| - 1], 1);
      NextNotEarly(Run(rtt, steps[..|steps| - 1]), steps[|steps| - 1].0, steps[|steps| - 1].1, confirmed);
    }
  }

  lemma ChosenIsDue(cc: Cc, env: Env, e: Epoch)
    requires AllStamped(cc.spaces) && NotEarly(cc, env.maxAckDelay, env.path.confirmed) && ProbeTimeout(cc, env, Tick)
    requires !NothingAsks(cc.spaces) && OnTimeout(cc, env).need.Get(e) != cc.need.Get(e)
    ensures cc.spaces.Get(e).lastElicit.Some? && Due(cc, env.maxAckDelay, e) <= env.now
  {
    ProbedMeaning(cc.spaces, env.path);
    PtoIsEarliest(cc, env);
    assert PtoTimeAndEpoch(cc, env).Some? && PtoTimeAndEpoch(cc, env).value.1 == e;
    var d: Epoch :| Asks(cc.spaces.Get(d)) && (d == Data ==> env.path.confirmed)
                    && cc.spaces.Get(d).lastElicit.Some? && Due(cc, env.maxAckDelay, d) <= cc.timer.value;
    assert Eligible(cc.spaces, env.path, d);
  }

  /** What every run leaves behind for the next tick. */
  ghost predicate Ready(cc: Cc, env: Env) { AllStamped(cc.spaces) && NotEarly(cc, env.maxAckDelay, env.path.confirmed) }

  lemma RunIsReady(rtt: Rtt, steps: seq<(Env, Event)>, env: Env)
    requires forall i :: 0 <= i < |steps| ==>
               steps[i].0.maxAckDelay == env.maxAckDelay && (steps[i].0.path.confirmed ==> env.path.confirmed)
    ensures Ready(Run(rtt, steps), env)
  {
    RunKeeps(rtt, steps, 1);
    RunNotEarly(rtt, steps, env.maxAckDelay, env.path.confirmed);
  }

  lemma TickIsDue(cc: Cc, env: Env, e: Epoch)
    requires Ready(cc, env) && ProbeTimeout(cc, env, Tick)
    requires !NothingAsks(cc.spaces) && Next(cc, env, Tick).need.Get(e) != cc.need.Get(e)
    ensures cc.spaces.Get(e).lastElicit.Some?
    ensures DueAfter(cc.spaces.Get(e).lastElicit.value, cc.rtt, cc.pto, env.maxAckDelay, e) <= env.now
  {
    assert Next(cc, env, Tick) == OnTimeout(cc, env);
    ChosenIsDue(cc, env, e);
  }

  /**
   * No probe comes early. Over every run with one acknowledgement delay and a confirmation that is
   * not taken back: a tick that asks for a probe in a space, while packets ask for an
   * acknowledgement, comes no earlier than the last ack-eliciting send there, plus the round trip
   * time, plus the variance doubled once for each probe timeout since the back-off last ended, plus,
   * for the application, the delay doubled as often.
   */
  lemma ProbeNotEarly(rtt: Rtt, steps: seq<(Env, Event)>, env: Env, e: Epoch)
    requires forall i :: 0 <= i < |steps| ==>
               steps[i].0.maxAckDelay == env.maxAckDelay && (steps[i].0.path.confirmed ==> env.path.confirmed)
    requires ProbeTimeout(Run(rtt, steps), env, Tick) && !NothingAsks(Run(rtt, steps).spaces)
    requires Next(Run(rtt, steps), env, Tick).need.Get(e) != Run(rtt, steps).need.Get(e)
    ensures LastAsked(rtt, steps, e).Some?
    ensures DueAfter(LastAsked(rtt, steps, e).value, Run(rtt, steps).rtt, ProbesSince(rtt, steps), env.maxAckDelay, e)
            <= env.now
  {
    RunIsReady(rtt, steps, env);
    TickIsDue(Run(rtt, steps), env, e);
    BackoffCount(rtt, steps);
    LastAskedOverRun(rtt, steps, e);
  }

  // ---------------------------------------------------------------- the timer, exactly

  /** The time is that of the space due first. */
  ghost predicate IsFirstDue(cc: Cc, env: Env, t: int) {
    && (exists e: Epoch :: Eligible(cc.spaces, env.path, e) && cc.spaces.Get(e).lastElicit.Some?
                           && t == Due(cc, env.maxAckDelay, e))
    && (forall e: Epoch :: Eligible(cc.spaces, env.path, e) && cc.spaces.Get(e).lastElicit.Some? ==>
          t <= Due(cc, env.maxAckDelay, e))
  }

  /**
   * The time the timer is set to without a loss time: that of the space due first, or, with nothing
   * to probe for and the address not validated, the probe period from now on. It is never set at the
   * amplification limit.
   */
  lemma TimerIsExact(cc: Cc, env: Env)
    requires AllStamped(cc.spaces) && LossTimeAndEpoch(cc.spaces).None? && SetTimer(cc, env).timer.Some?
    ensures var t := SetTimer(cc, env).timer.value;
            && !env.path.atLimit
            && (NothingAsks(cc.spaces) ==>
                  !Validated(env.path) && t == env.now + cc.rtt.smoothed + Max(4 * cc.rtt.rttvar, 1000) * Pow2(cc.pto))
            && (!NothingAsks(cc.spaces) ==> IsFirstDue(cc, env, t))
  {
    ProbedMeaning(cc.spaces, env.path);
    if NothingAsks(cc.spaces) {
      AntiDeadlockProbe(cc, env);
    } else {
      PtoIsEarliest(cc, env);
    }
  }

  // ---------------------------------------------------------------- probe requests

  /**
   * The space a probe timeout asks in: the one due first, the first on a tie; with nothing to probe
   * for, Handshake if its keys are there and Initial otherwise.
   */
  ghost predicate ProbesIn(cc: Cc, env: Env, e: Epoch) {
    if NothingAsks(cc.spaces) then e == if env.path.hasHandshakeKey then Handshake else Initial
    else
      && Eligible(cc.spaces, env.path, e) && cc.spaces.Get(e).lastElicit.Some?
      && forall d: Epoch :: d != e && Eligible(cc.spaces, env.path, d) && cc.spaces.Get(d).lastElicit.Some? ==>
           || Due(cc, env.maxAckDelay, e) < Due(cc, env.maxAckDelay, d)
           || (Due(cc, env.maxAckDelay, e) == Due(cc, env.maxAckDelay, d) && Index(e) < Index(d))
  }

  /** How many probes the space still owes: one more for each asked for, one less for each ack-eliciting send. */
  ghost function Owed(rtt: Rtt, steps: seq<(Env, Event)>, e: Epoch): nat {
    if steps == [] then 0
    else
      var before, env, step := steps[..|steps| - 1], steps[|steps| - 1].0, steps[|steps| - 1].1;
      var cc, n := Run(rtt, before), Owed(rtt, before, e);
      if !Possible(cc, env, step) then n
      else if step.PktSent? && step.epoch == e && step.packet.ackEliciting then if n == 0 then 0 else n - 1
      else if ProbeTimeout(cc, env, step) && ProbesIn(cc, env, e) then n + 1
      else n
  }

  lemma ProbeAsks(cc: Cc, env: Env, e: Epoch)
    requires AllStamped(cc.spaces)
    ensures Probe(cc, env).need.Get(e) == cc.need.Get(e) + if ProbesIn(cc, env, e) then 1 else 0
  {
    ProbedMeaning(cc.spaces, env.path);
    if !NothingAsks(cc.spaces) { PtoIsEarliest(cc, env); }
  }

  lemma DetectInNeed(cc: Cc, env: Env, e: Epoch)
    ensures DetectIn(cc, env, e).need == cc.need
  {
  }

  lemma OnTimeoutNeed(cc: Cc, env: Env, e: Epoch)
    requires AllStamped(cc.spaces)
    ensures OnTimeout(cc, env).need.Get(e)
         == cc.need.Get(e) + if LossTimeAndEpoch(cc.spaces).None? && ProbesIn(cc, env, e) then 1 else 0
  {
    ProbeAsks(cc, env, e);
  }

  lemma OnAckRcvdNeed(cc: Cc, env: Env, e: Epoch, f: AckFrame)
    requires WellFormed(f)
    ensures OnAckRcvd(cc, env, e, f).need == cc.need
  {
    DetectInNeed(Absorb(cc, env, e, f), env, e);
  }

  lemma NextNeed(cc: Cc, env: Env, step: Event, e: Epoch)
    requires AllStamped(cc.spaces) && Possible(cc, env, step)
    ensures Next(cc, env, step).need.Get(e)
         == if step.PktSent? && step.epoch == e && step.packet.ackEliciting
            then if cc.need.Get(e) == 0 then 0 else cc.need.Get(e) - 1
            else if ProbeTimeout(cc, env, step) && ProbesIn(cc, env, e) then cc.need.Get(e) + 1
            else cc.need.Get(e)
  {
    match step
    case PktSent(_, _) =>
    case AckRcvd(d, f) => OnAckRcvdNeed(cc, env, d, f);
    case PktRcvd(_) => DatagramArmsIff(cc, env);
    case Tick => OnTimeoutNeed(cc, env, e);
    case DropEpoch(_) =>
  }

  /** Over every run the controller asks for exactly the probes owed. */
  lemma {:induction false} NeedOverRun(rtt: Rtt, steps: seq<(Env, Event)>, e: Epoch)
    ensures Run(rtt, steps).need.Get(e) == Owed(rtt, steps, e)
  {
    if steps != [] {
      var before, env, step := steps[..|steps| - 1], steps[|steps| - 1].0, steps[|steps| - 1].1;
      NeedOverRun(rtt, before, e);
      RunKeeps(rtt, before, 1);
      if Possible(Run(rtt, before), env, step) { NextNeed(Run(rtt, before), env, step, e); }
    }
  }

  // ---------------------------------------------------------------- one call

  /**
   * Sending leaves every loss time there is in place. A packet that counts gives its space one if
   * there was none, the loss delay after the send; nothing else changes a loss time.
   */
  lemma SendNeverPostpones(cc: Cc, env: Env, e: Epoch, p: SentPacket, d: Epoch)
    requires Possible(cc, env, PktSent(e, p))
    ensures OnPacketSent(cc, env, e, p).spaces.Get(d).lossTime
         == if d == e && p.countForCc && cc.spaces.Get(d).lossTime.None? then Some(env.now + cc.rtt.lossDelay)
            else cc.spaces.Get(d).lossTime
  {
    OnPacketSentShape(cc, env, e, p);
  }

  /** Nothing in the space is overdue at the time of the call, with the loss delay as it is now. */
  ghost predicate Clean(cc: Cc, env: Env, e: Epoch) {
    forall i: nat :: !Overdue(cc.spaces.Get(e), Clock(env.now, cc.rtt.lossDelay, 3), i)
  }

  lemma DetectInCleans(cc: Cc, env: Env, e: Epoch)
    requires Sorted(cc.spaces.Get(e).sent)
    ensures Clean(DetectIn(cc, env, e), env, e)
  {
    forall i: nat ensures !Overdue(Detect(cc.spaces.Get(e), ClockOf(cc, env)), ClockOf(cc, env), i) {
      DetectLeavesNone(cc.spaces.Get(e), ClockOf(cc, env), i);
    }
  }

  lemma LiveIsSorted(cc: Cc, e: Epoch)
    requires AllLive(cc)
    ensures Sorted(cc.spaces.Get(e).sent)
  {
    assert Lives(cc.spaces.Get(e).sent, cc.log.Get(e), cc.told.Get(e));
  }

  lemma AbsorbKeepsSorted(cc: Cc, env: Env, e: Epoch, f: AckFrame)
    requires WellFormed(f) && Booked(cc, 1)
    ensures Sorted(Absorb(cc, env, e, f).spaces.Get(e).sent)
  {
    AbsorbKeeps(cc, env, e, f, 1);
    LiveIsSorted(Absorb(cc, env, e, f), e);
  }

  /** A frame that acknowledges anything new leaves nothing overdue behind in its space. */
  lemma AckCleans(cc: Cc, env: Env, e: Epoch, f: AckFrame)
    requires WellFormed(f) && Inv(cc, 1) && HasNew(cc, e, f)
    ensures Clean(OnAckRcvd(cc, env, e, f), env, e)
  {
    AbsorbKeepsSorted(cc, env, e, f);
    DetectInCleans(Absorb(cc, env, e, f), env, e);
  }

  /** Losses are found by a tick exactly if the timer has run out, some loss time is set, and a packet is overdue. */
  lemma TickFindsLossIff(cc: Cc, env: Env)
    requires Inv(cc, 1)
    ensures Next(cc, env, Tick).trace != cc.trace <==>
            && cc.timer.Some? && cc.timer.value <= env.now && LossTimeAndEpoch(cc.spaces).Some?
            && !Clean(cc, env, LossTimeAndEpoch(cc.spaces).value.1)
  {
    var loss := LossTimeAndEpoch(cc.spaces);
    if loss.Some? {
      assert Lives(cc.spaces.Get(loss.value.1).sent, cc.log.Get(loss.value.1), cc.told.Get(loss.value.1));
      TimeoutFindsLossIff(cc, env);
    }
  }

  /** An arriving datagram finds losses exactly at the amplification limit and after the earliest loss time. */
  lemma DatagramFindsLossIff(cc: Cc, env: Env)
    requires Inv(cc, 1)
    ensures !env.path.atLimit ==> OnDatagram(cc, env) == cc
    ensures OnDatagram(cc, env).trace != cc.trace <==>
            && env.path.atLimit && LossTimeAndEpoch(cc.spaces).Some?
            && LossTimeAndEpoch(cc.spaces).value.0 < env.now && !Clean(cc, env, LossTimeAndEpoch(cc.spaces).value.1)
  {
    var loss := LossTimeAndEpoch(cc.spaces);
    if loss.Some? {
      assert Lives(cc.spaces.Get(loss.value.1).sent, cc.log.Get(loss.value.1), cc.told.Get(loss.value.1));
      TimeoutFindsLossIff(SetTimer(cc, env), env);
    }
  }

  /** A discarded space is empty and wants nothing; the others stay, the back-off ends, and the timer is set anew. */
  lemma DiscardClears(cc: Cc, env: Env, e: Epoch, d: Epoch)
    ensures var cc' := DiscardEpoch(cc, env, e);
            && cc'.spaces.Get(e) == Space(cc.spaces.Get(e).largestAcked, None, None, [])
            && (d != e ==> cc'.spaces.Get(d) == cc.spaces.Get(d))
            && cc'.pto == 0 && cc'.rtt == cc.rtt && TimerIsLossTime(cc')
  {
    SetTimerIsLossTime(cc, env);
  }

  /** A tracked packet that the frame acknowledges for the first time. */
  ghost predicate NewIn(cc: Cc, e: Epoch, f: AckFrame, p: SentPacket)
    requires WellFormed(f)
  {
    p in cc.spaces.Get(e).sent && p.state != Acked && InRanges(Ranges(f), p.pn)
  }

  lemma NewInMeaning(cc: Cc, e: Epoch, f: AckFrame)
    requires WellFormed(f)
    ensures forall p :: NewIn(cc, e, f, p) <==> p in Newly(cc.spaces.Get(e).sent, Ranges(f))
  {
    NewlyMembers(cc.spaces.Get(e).sent, Ranges(f), 0);
  }

  lemma RangesUpToLargest(f: AckFrame, pn: nat)
    requires WellFormed(f) && InRanges(Ranges(f), pn)
    ensures pn <= f.largest
  {
    RangesDescend(f);
    var i :| 0 <= i < |Ranges(f)| && Ranges(f)[i].lo <= pn <= Ranges(f)[i].hi;
    if i > 0 { assert Ranges(f)[i].hi < Ranges(f)[0].lo; }
  }

  /**
   * A frame yields a sample exactly if its largest number is newly acknowledged together with some
   * packet that asked for it.
   */
  lemma SampleTakenIff(cc: Cc, env: Env, e: Epoch, f: AckFrame)
    requires WellFormed(f) && Sorted(cc.spaces.Get(e).sent)
    ensures Absorb(cc, env, e, f).rtt
         == if && (exists p :: NewIn(cc, e, f, p) && p.pn == f.largest)
               && (exists p :: NewIn(cc, e, f, p) && p.ackEliciting) then env.sample else cc.rtt
  {
    var s := UpdateLargest(cc.spaces.Get(e), f.largest);
    var result := AckResult(Newly(s.sent, Ranges(f)));
    AckIsMembership(s, Ranges(f));
    NewInMeaning(cc, e, f);
    forall p | NewIn(cc, e, f, p) ensures p.pn <= f.largest { RangesUpToLargest(f, p.pn); }
    assert Absorb(cc, env, e, f).rtt
        == if result.Some? && result.value.largest == f.largest && result.value.includeAckEliciting
           then env.sample else cc.rtt;
  }

  /** The largest of the new packets is the first the algorithm is told of. */
  lemma LargestNewIsFirst(cc: Cc, e: Epoch, f: AckFrame, p: SentPacket)
    requires WellFormed(f) && Sorted(cc.spaces.Get(e).sent)
    requires NewIn(cc, e, f, p) && forall q :: NewIn(cc, e, f, q) ==> q.pn <= p.pn
    ensures Newly(cc.spaces.Get(e).sent, Ranges(f)) != [] && Newly(cc.spaces.Get(e).sent, Ranges(f))[0] == p
  {
    var newly := Newly(cc.spaces.Get(e).sent, Ranges(f));
    NewInMeaning(cc, e, f);
    NewlyDescends(cc.spaces.Get(e).sent, Ranges(f), 0);
    assert newly[0] in newly && NewIn(cc, e, f, newly[0]);
  }

  /**
   * With ECN counts and anything new, the algorithm hears of the count once, after the
   * acknowledgements, with the send time of the largest new packet; without counts it does not.
   */
  lemma EcnToldOnce(cc: Cc, env: Env, e: Epoch, f: AckFrame, p: SentPacket)
    requires WellFormed(f) && Sorted(cc.spaces.Get(e).sent)
    requires NewIn(cc, e, f, p) && forall q :: NewIn(cc, e, f, q) ==> q.pn <= p.pn
    ensures f.ecn.None? ==> Absorb(cc, env, e, f).trace == cc.trace + AckCalls(cc.spaces.Get(e), Ranges(f))
    ensures f.ecn.Some? ==> Absorb(cc, env, e, f).trace == cc.trace + AckCalls(cc.spaces.Get(e), Ranges(f))
                                                           + [Ecn(Index(e), f.ecn.value.ce, p.timeSent, env.now)]
  {
    LargestNewIsFirst(cc, e, f, p);
  }
}
