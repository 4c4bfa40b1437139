/** The congestion controller object: three packet spaces, the algorithm, one timer. */
module Congestion {
  import opened Prelude
  import opened AckFrames
  import opened PacketSpec
  import opened NewRenos
  import opened Packets
  import Spec = CongestionSpec
  import Proofs = CongestionProofs
  import PacketProofs
  import NewRenoSpec
  import opened CongestionSpec

  class CongestionController {
    const algorithm: NewReno
    const initial: PacketSpace
    const handshake: PacketSpace
    const data: PacketSpace
    var rtt: Rtt
    var lossDetectionTimer: Option<int>
    var ptoCount: nat
    var needSend: Per<nat>
    ghost var log: Per<set<nat>>
    ghost var told: Per<seq<Callback>>

    predicate Apart() { initial != handshake && initial != data && handshake != data }

    function SpaceOf(e: Epoch): PacketSpace {
      match e case Initial => initial case Handshake => handshake case Data => data
    }

    ghost function Spaces(): Per<Space>
      reads initial, handshake, data
    {
      Per(initial.View(), handshake.View(), data.View())
    }

    ghost function View(): Cc
      reads this, initial, handshake, data, algorithm
    {
      Cc(Spaces(), lossDetectionTimer, ptoCount, rtt, needSend, log, told, algorithm.trace)
    }

    /** What holds within a step too: the books are right, the timer may lag behind. */
    ghost predicate Booked()
      reads this, initial, handshake, data, algorithm
    {
      && Apart() && algorithm.Valid()
      && Proofs.AllLive(View()) && Proofs.Accounted(View(), algorithm.maxDatagramSize) && AllStamped(Spaces())
    }

    ghost predicate Valid()
      reads this, initial, handshake, data, algorithm
    {
      Apart() && algorithm.Valid() && Proofs.Inv(View(), algorithm.maxDatagramSize)
    }

    constructor (algorithm: NewReno, rtt: Rtt)
      requires algorithm.Valid() && algorithm.trace == []
      ensures Valid() && View() == Spec.New(rtt) && fresh(initial) && fresh(handshake) && fresh(data)
      ensures this.algorithm == algorithm
    {
      this.algorithm, this.rtt := algorithm, rtt;
      initial := new PacketSpace();
      handshake := new PacketSpace();
      data := new PacketSpace();
      lossDetectionTimer, ptoCount, needSend := None, 0, Per(0, 0, 0);
      log, told := Per({}, {}, {}), Per([], [], []);
      new;
      Proofs.NewSatisfiesInv(rtt, algorithm.maxDatagramSize);
    }

    // -------------------------------------------------------------- queries

    method GetLossTimeAndEpoch() returns (r: Option<(int, Epoch)>)
      ensures r == LossTimeAndEpoch(Spaces())
    {
      var epochs := [Initial, Handshake, Data];
      r := None;
      for i := 0 to 3
        invariant i == 0 ==> r == None
        invariant i == 1 ==> r == Tagged(initial.lossTime, Initial)
        invariant i == 2 ==> r == Sooner(Tagged(initial.lossTime, Initial), Tagged(handshake.lossTime, Handshake))
        invariant i == 3 ==> r == LossTimeAndEpoch(Spaces())
      {
        var t := SpaceOf(epochs[i]).lossTime;
        if t.Some? && (r.None? || t.value < r.value.0) {
          r := Some((t.value, epochs[i]));
        }
      }
    }

    predicate NoAckElicitingInFlight()
      reads initial, handshake, data
    {
      && NoElicitInFlight(initial.sentPackets)
      && NoElicitInFlight(handshake.sentPackets)
      && NoElicitInFlight(data.sentPackets)
    }

    method GetPtoTimeAndEpoch(env: Env) returns (r: Option<(int, Epoch)>)
      requires AllStamped(Spaces())
      ensures r == PtoTimeAndEpoch(View(), env)
    {
      var duration := BasePto(rtt, ptoCount);
      if NoAckElicitingInFlight() {
        return Some((env.now + duration, if env.path.hasHandshakeKey then Handshake else Initial));
      }
      var epochs := [Initial, Handshake, Data];
      r := None;
      for i := 0 to 3
        invariant i < 3 ==> duration == BasePto(rtt, ptoCount)
        invariant i == 0 ==> r == None
        invariant i == 1 ==> r == PtoOf(View(), env, Initial)
        invariant i == 2 ==> r == Sooner(PtoOf(View(), env, Initial), PtoOf(View(), env, Handshake))
        invariant i == 3 ==> r == PtoTimeAndEpoch(View(), env)
      {
        var space := SpaceOf(epochs[i]);
        if !NoElicitInFlight(space.sentPackets) {
          if epochs[i] == Data {
            if !env.path.confirmed {
              return;
            }
            duration := duration + env.maxAckDelay * Pow2(ptoCount);
          }
          var t := space.timeOfLastAckEliciting.value + duration;
          if r.None? || t < r.value.0 {
            r := Some((t, epochs[i]));
          }
        }
      }
    }

    // -------------------------------------------------------------- events

    method SetLossDetectionTimer(env: Env)
      requires AllStamped(Spaces())
      modifies this`lossDetectionTimer
      ensures View() == SetTimer(old(View()), env)
    {
      var loss := GetLossTimeAndEpoch();
      if loss.Some? {
        lossDetectionTimer := Some(loss.value.0);
        return;
      }
      if env.path.atLimit {
        lossDetectionTimer := None;
        return;
      }
      if NoAckElicitingInFlight() && PeerCompleted(env.path) {
        lossDetectionTimer := None;
        return;
      }
      var pto := GetPtoTimeAndEpoch(env);
      lossDetectionTimer := if pto.Some? then Some(pto.value.0) else None;
    }

    ghost method Tell(e: Epoch, calls: seq<Callback>)
      modifies this`told
      ensures told == old(told).Set(e, old(told).Get(e) + calls)
    {
      told := told.Set(e, told.Get(e) + calls);
    }

    /** Notes the send time and the first deadline in the packet's space. */
    method StampSpace(e: Epoch, p: SentPacket)
      requires Apart()
      modifies initial, handshake, data
      ensures Spaces() == old(Spaces()).Set(e, Announced(old(Spaces()).Get(e), p, rtt.lossDelay))
    {
      var space := SpaceOf(e);
      if p.ackEliciting {
        space.timeOfLastAckEliciting := Some(p.timeSent);
      }
      if space.lossTime.None? {
        space.lossTime := Some(p.timeSent + rtt.lossDelay);
      }
    }

    /** One probe request is answered. */
    method CountDown(e: Epoch)
      modifies this`needSend
      ensures needSend == old(needSend).Set(e, if old(needSend).Get(e) == 0 then 0 else old(needSend).Get(e) - 1)
    {
      needSend := needSend.Set(e, if needSend.Get(e) == 0 then 0 else needSend.Get(e) - 1);
    }

    /** The algorithm is told of the packet. */
    method ReportSent(e: Epoch, p: SentPacket)
      requires algorithm.Valid()
      modifies this`told, algorithm
      ensures algorithm.Valid() && algorithm.trace == old(algorithm.trace) + [PacketSent(p)]
      ensures told == old(told).Set(e, old(told).Get(e) + [PacketSent(p)])
    {
      algorithm.OnPacketSentCc(p);
      Tell(e, [PacketSent(p)]);
    }

    method AnnouncePacket(e: Epoch, p: SentPacket)
      requires Apart() && algorithm.Valid()
      modifies this`needSend, this`told, initial, handshake, data, algorithm
      ensures algorithm.Valid() && View() == Announce(old(View()), e, p)
    {
      if p.ackEliciting {
        CountDown(e);
      }
      ReportSent(e, p);
      StampSpace(e, p);
    }

    method PushPacket(e: Epoch, p: SentPacket)
      requires Apart()
      modifies this`log, initial`sentPackets, handshake`sentPackets, data`sentPackets
      ensures View() == Push(old(View()), e, p)
    {
      var space := SpaceOf(e);
      space.sentPackets := space.sentPackets + [p];
      log := log.Set(e, log.Get(e) + {p.pn});
    }

    method TrackPacket(env: Env, e: Epoch, p: SentPacket)
      requires Apart() && algorithm.Valid() && AllStamped(Spaces())
      modifies this, initial, handshake, data, algorithm
      ensures algorithm.Valid() && View() == Spec.OnPacketSent(old(View()), env, e, p)
    {
      if p.countForCc {
        Proofs.AnnounceStamped(View(), e, p);
        AnnouncePacket(e, p);
        SetLossDetectionTimer(env);
      }
      PushPacket(e, p);
    }

    method OnPacketSent(env: Env, e: Epoch, p: SentPacket)
      requires Valid() && Possible(View(), env, PktSent(e, p))
      modifies this, initial, handshake, data, algorithm
      ensures Valid() && View() == Spec.OnPacketSent(old(View()), env, e, p)
    {
      Proofs.OnPacketSentKeeps(View(), env, e, p, algorithm.maxDatagramSize);
      TrackPacket(env, e, p);
    }

    method DetectLost(env: Env, e: Epoch) returns (numbers: seq<nat>)
      requires Booked()
      modifies this`told, initial, handshake, data, algorithm
      ensures Booked() && View() == DetectIn(old(View()), env, e)
      ensures var s := old(Spaces()).Get(e); numbers == Numbers(Lost(s.sent, LossBound(s), ClockOf(old(View()), env)))
    {
      ghost var cc := View();
      Proofs.DetectInKeeps(cc, env, e, algorithm.maxDatagramSize);
      assert PacketProofs.Lives(cc.spaces.Get(e).sent, cc.log.Get(e), cc.told.Get(e));
      numbers := SpaceOf(e).DetectLostPackets(Clock(env.now, rtt.lossDelay, PACKET_THRESHOLD), algorithm);
      Tell(e, DetectCalls(cc.spaces.Get(e), ClockOf(cc, env)));
      assert Spaces() == cc.spaces.Set(e, Detect(cc.spaces.Get(e), ClockOf(cc, env)));
    }

    /** Acknowledges packets of one space and reports them to the algorithm. */
    method Acknowledge(e: Epoch, frame: AckFrame) returns (newly: Option<NewlyAcked>)
      requires Booked() && WellFormed(frame)
      modifies this`told, initial, handshake, data, algorithm
      ensures algorithm.Valid()
      ensures var s := UpdateLargest(old(Spaces()).Get(e), frame.largest);
              && View() == Change(old(View()), e, OnAck(s, Ranges(frame)), AckCalls(s, Ranges(frame)))
              && newly == AckResult(Newly(s.sent, Ranges(frame)))
    {
      ghost var cc := View();
      assert PacketProofs.Lives(cc.spaces.Get(e).sent, cc.log.Get(e), cc.told.Get(e));
      var space := SpaceOf(e);
      space.UpdateLargestAckedPacket(frame.largest);
      ghost var s := space.View();
      newly := space.OnAckRcvd(frame, algorithm);
      Tell(e, AckCalls(s, Ranges(frame)));
      assert Spaces() == cc.spaces.Set(e, OnAck(s, Ranges(frame)));
    }

    method ProcessEcn(e: Epoch, ce: nat, timeSent: int, now: int)
      requires algorithm.Valid()
      modifies this`told, algorithm
      ensures algorithm.Valid()
      ensures View() == Change(old(View()), e, old(Spaces()).Get(e), [Ecn(Index(e), ce, timeSent, now)])
    {
      algorithm.ProcessEcn(Index(e), ce, timeSent, now);
      Tell(e, [Ecn(Index(e), ce, timeSent, now)]);
    }

    /** Everything an acknowledgement does before loss detection. */
    method AbsorbAck(env: Env, e: Epoch, frame: AckFrame) returns (newly: Option<NewlyAcked>)
      requires Booked() && WellFormed(frame)
      modifies this`told, this`rtt, initial, handshake, data, algorithm
      ensures Booked() && View() == Absorb(old(View()), env, e, frame)
      ensures newly.Some? <==> HasNew(old(View()), e, frame)
    {
      Proofs.AbsorbKeeps(View(), env, e, frame, algorithm.maxDatagramSize);
      newly := Acknowledge(e, frame);
      if newly.Some? {
        if newly.value.largest == frame.largest && newly.value.includeAckEliciting {
          rtt := env.sample;
        }
        if frame.ecn.Some? {
          ProcessEcn(e, frame.ecn.value.ce, newly.value.timeSent, env.now);
        }
      }
    }

    /** Loss detection, the end of the back-off, and the timer. */
    method FinishAck(env: Env, e: Epoch)
      requires Booked()
      modifies this, initial, handshake, data, algorithm
      ensures var cc := DetectIn(old(View()), env, e);
              algorithm.Valid() && View() == SetTimer(if PeerCompleted(env.path) then cc.(pto := 0) else cc, env)
    {
      var _ := DetectLost(env, e);
      if PeerCompleted(env.path) {
        ptoCount := 0;
      }
      SetLossDetectionTimer(env);
    }

    method ReactToAck(env: Env, e: Epoch, frame: AckFrame)
      requires Booked() && WellFormed(frame)
      modifies this, initial, handshake, data, algorithm
      ensures algorithm.Valid() && View() == Spec.OnAckRcvd(old(View()), env, e, frame)
    {
      var newly := AbsorbAck(env, e, frame);
      if newly.Some? {
        FinishAck(env, e);
      }
    }

    method OnAckRcvd(env: Env, e: Epoch, frame: AckFrame)
      requires Valid() && WellFormed(frame)
      modifies this, initial, handshake, data, algorithm
      ensures Valid() && View() == Spec.OnAckRcvd(old(View()), env, e, frame)
    {
      Proofs.OnAckRcvdKeeps(View(), env, e, frame, algorithm.maxDatagramSize);
      ReactToAck(env, e, frame);
    }

    method SendAckElicitingPacket(e: Epoch)
      modifies this`needSend
      ensures View() == Ask(old(View()), e)
    {
      needSend := needSend.Set(e, needSend.Get(e) + 1);
    }

    method SendProbe(env: Env)
      requires AllStamped(Spaces())
      modifies this`needSend
      ensures View() == Probe(old(View()), env)
    {
      if NoAckElicitingInFlight() {
        SendAckElicitingPacket(if env.path.hasHandshakeKey then Handshake else Initial);
      } else {
        var pto := GetPtoTimeAndEpoch(env);
        if pto.Some? {
          SendAckElicitingPacket(pto.value.1);
        }
      }
    }

    method ReactToTimeout(env: Env)
      requires Booked()
      modifies this, initial, handshake, data, algorithm
      ensures algorithm.Valid() && View() == OnTimeout(old(View()), env)
    {
      var loss := GetLossTimeAndEpoch();
      if loss.Some? {
        var _ := DetectLost(env, loss.value.1);
        SetLossDetectionTimer(env);
        return;
      }
      SendProbe(env);
      ptoCount := ptoCount + 1;
      SetLossDetectionTimer(env);
    }

    method OnLossDetectionTimeout(env: Env)
      requires Booked()
      modifies this, initial, handshake, data, algorithm
      ensures Valid() && View() == OnTimeout(old(View()), env)
    {
      Proofs.OnTimeoutKeeps(View(), env, algorithm.maxDatagramSize);
      ReactToTimeout(env);
    }

    method OnDatagramRcvd(env: Env)
      requires Valid()
      modifies this, initial, handshake, data, algorithm
      ensures Valid() && View() == OnDatagram(old(View()), env)
    {
      Proofs.OnDatagramKeeps(View(), env, algorithm.maxDatagramSize);
      if env.path.atLimit {
        ghost var cc := View();
        SetLossDetectionTimer(env);
        Proofs.BooksKept(cc, View());
        if lossDetectionTimer.Some? && lossDetectionTimer.value < env.now {
          OnLossDetectionTimeout(env);
        }
      }
    }

    /** The discarded bytes are all accounted for, so the unchecked subtraction is safe. */
    method DiscardSpace(e: Epoch)
      requires Booked()
      modifies this`told, initial, handshake, data, algorithm
      ensures algorithm.Valid()
      ensures var s := old(Spaces()).Get(e); View() == Change(old(View()), e, Discard(s), DiscardCalls(s))
    {
      ghost var cc := View();
      ghost var s := cc.spaces.Get(e);
      NewRenoSpec.TakenExact(algorithm.bytesInFlight, s.sent);
      SpaceOf(e).Discard(algorithm);
      Tell(e, DiscardCalls(s));
      assert Spaces() == cc.spaces.Set(e, Discard(s));
    }

    method DiscardEpoch(env: Env, e: Epoch)
      requires Valid() && e != Data
      modifies this, initial, handshake, data, algorithm
      ensures Valid() && View() == Spec.DiscardEpoch(old(View()), env, e)
    {
      Proofs.DiscardEpochKeeps(View(), env, e, algorithm.maxDatagramSize);
      DiscardSpace(e);
      lossDetectionTimer, ptoCount := None, 0;
      SetLossDetectionTimer(env);
    }

    // -------------------------------------------------------------- the shared handle

    /** One call on the shared handle, or one tick of its task. */
    method Handle(env: Env, step: Event)
      requires Valid() && Possible(View(), env, step)
      modifies this, initial, handshake, data, algorithm
      ensures Valid() && View() == Next(old(View()), env, step)
    {
      match step
      case PktSent(e, p) =>
        OnPacketSent(env, e, p);
        if e == Handshake && !env.path.isServer {
          DiscardEpoch(env, Initial);
        }
      case AckRcvd(e, f) =>
        OnAckRcvd(env, e, f);
        if e == Handshake && env.path.isServer {
          DiscardEpoch(env, Initial);
        }
      case PktRcvd(eliciting) =>
        if eliciting {
          OnDatagramRcvd(env);
        }
      case Tick =>
        if lossDetectionTimer.Some? && lossDetectionTimer.value <= env.now {
          OnLossDetectionTimeout(env);
        }
      case DropEpoch(e) =>
        DiscardEpoch(env, e);
    }
  }
}
