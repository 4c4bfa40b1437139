/**
 * The congestion controller (`qcongestion/src/congestion.rs`) on values: three packet number
 * spaces, one loss detection timer, and the callbacks made to the algorithm (Appendix A of
 * RFC 9002). Times are integers in microseconds; the clock, the path flags and the result of an
 * RTT update are inputs.
 */
module CongestionSpec {
  import opened Prelude
  import opened AckFrames
  import opened PacketSpec

  datatype Epoch = Initial | Handshake | Data

  /** One value for each packet number space. */
  datatype Per<T> = Per(initial: T, handshake: T, data: T) {
    function Get(e: Epoch): T {
      match e case Initial => initial case Handshake => handshake case Data => data
    }

    function Set(e: Epoch, x: T): Per<T> {
      match e
      case Initial => this.(initial := x)
      case Handshake => this.(handshake := x)
      case Data => this.(data := x)
    }
  }

  const PACKET_THRESHOLD: nat := 3
  const GRANULARITY: nat := 1000

  datatype Path = Path(isServer: bool, atLimit: bool, hasHandshakeKey: bool, handshakeAck: bool, confirmed: bool)

  datatype Rtt = Rtt(smoothed: nat, rttvar: nat, lossDelay: nat)

  /** The estimate before any sample: 33 ms, half of that as variance, and a loss delay of 9/8 of it. */
  const INITIAL_RTT := Rtt(33000, 16500, 37125)

  /** The inputs of one step; `sample` is what an RTT update would produce. */
  datatype Env = Env(now: int, path: Path, maxAckDelay: nat, sample: Rtt)

  /**
   * `log` holds the numbers ever sent and `told` the callbacks about each space; `trace` holds all
   * callbacks in order. They record what happened and steer nothing.
   */
  datatype Cc = Cc(
    spaces: Per<Space>, timer: Option<int>, pto: nat, rtt: Rtt, need: Per<nat>,
    log: Per<set<nat>>, told: Per<seq<Callback>>, trace: seq<Callback>)

  function New(rtt: Rtt): Cc {
    Cc(Per(EMPTY, EMPTY, EMPTY), None, 0, rtt, Per(0, 0, 0), Per({}, {}, {}), Per([], [], []), [])
  }

  /** One space changes and the algorithm is told. */
  function Change(cc: Cc, e: Epoch, s: Space, calls: seq<Callback>): Cc {
    cc.(spaces := cc.spaces.Set(e, s), told := cc.told.Set(e, cc.told.Get(e) + calls), trace := cc.trace + calls)
  }

  // ---------------------------------------------------------------- the timer

  /** The earlier of two, the first on a tie. */
  function Sooner(a: Option<(int, Epoch)>, b: Option<(int, Epoch)>): Option<(int, Epoch)> {
    if a.Some? && (b.None? || a.value.0 <= b.value.0) then a else b
  }

  function Tagged(t: Option<int>, e: Epoch): Option<(int, Epoch)> { if t.Some? then Some((t.value, e)) else None }

  function LossTimeAndEpoch(ss: Per<Space>): Option<(int, Epoch)> {
    Sooner(Sooner(Tagged(ss.initial.lossTime, Initial), Tagged(ss.handshake.lossTime, Handshake)),
           Tagged(ss.data.lossTime, Data))
  }

  predicate NoElicit(ss: Per<Space>) {
    NoElicitInFlight(ss.initial.sent) && NoElicitInFlight(ss.handshake.sent) && NoElicitInFlight(ss.data.sent)
  }

  predicate PeerCompleted(path: Path) { path.isServer || path.handshakeAck || path.confirmed }

  function Pow2(n: nat): nat { if n == 0 then 1 else 2 * Pow2(n - 1) }

  /** Only the variance term backs off. */
  function BasePto(rtt: Rtt, pto: nat): int { rtt.smoothed + Max(4 * rtt.rttvar, GRANULARITY) * Pow2(pto) }

  function PtoDuration(cc: Cc, env: Env, e: Epoch): int {
    BasePto(cc.rtt, cc.pto) + if e == Data then env.maxAckDelay * Pow2(cc.pto) else 0
  }

  /** A packet that asks for an acknowledgement and is in flight has left its send time behind. */
  predicate Stamped(s: Space) { !NoElicitInFlight(s.sent) ==> s.lastElicit.Some? }

  predicate AllStamped(ss: Per<Space>) { Stamped(ss.initial) && Stamped(ss.handshake) && Stamped(ss.data) }

  /** Which spaces the probe timer looks at. */
  predicate Probed(ss: Per<Space>, path: Path, e: Epoch) {
    !NoElicitInFlight(ss.Get(e).sent) && (e == Data ==> path.confirmed)
  }

  /** The send time the code unwraps; `Stamped` says that it is there. */
  function Stamp(s: Space): int { if s.lastElicit.Some? then s.lastElicit.value else 0 }

  function PtoOf(cc: Cc, env: Env, e: Epoch): Option<(int, Epoch)> {
    if Probed(cc.spaces, env.path, e) then Some((Stamp(cc.spaces.Get(e)) + PtoDuration(cc, env, e), e)) else None
  }

  function PtoTimeAndEpoch(cc: Cc, env: Env): Option<(int, Epoch)> {
    if NoElicit(cc.spaces)
    then Some((env.now + BasePto(cc.rtt, cc.pto), if env.path.hasHandshakeKey then Handshake else Initial))
    else Sooner(Sooner(PtoOf(cc, env, Initial), PtoOf(cc, env, Handshake)), PtoOf(cc, env, Data))
  }

  function Time(t: Option<(int, Epoch)>): Option<int> { if t.Some? then Some(t.value.0) else None }

  function SetTimer(cc: Cc, env: Env): Cc {
    var loss := LossTimeAndEpoch(cc.spaces);
    cc.(timer :=
      if loss.Some? then Time(loss)
      else if env.path.atLimit then None
      else if NoElicit(cc.spaces) && PeerCompleted(env.path) then None
      else Time(PtoTimeAndEpoch(cc, env)))
  }

  // ---------------------------------------------------------------- the events

  function ClockOf(cc: Cc, env: Env): Clock { Clock(env.now, cc.rtt.lossDelay, PACKET_THRESHOLD) }

  /** The space of an in-flight packet just before the packet is queued. */
  function Announced(s: Space, p: SentPacket, lossDelay: nat): Space {
    s.(lastElicit := if p.ackEliciting then Some(p.timeSent) else s.lastElicit,
       lossTime := if s.lossTime.Some? then s.lossTime else Some(p.timeSent + lossDelay))
  }

  function Announce(cc: Cc, e: Epoch, p: SentPacket): Cc {
    var cc1 := Change(cc, e, Announced(cc.spaces.Get(e), p, cc.rtt.lossDelay), [PacketSent(p)]);
    if p.ackEliciting then cc1.(need := cc.need.Set(e, if cc.need.Get(e) == 0 then 0 else cc.need.Get(e) - 1)) else cc1
  }

  /** The timer is set before the packet is queued. */
  function Push(cc: Cc, e: Epoch, p: SentPacket): Cc {
    var s := cc.spaces.Get(e);
    cc.(spaces := cc.spaces.Set(e, s.(sent := s.sent + [p])), log := cc.log.Set(e, cc.log.Get(e) + {p.pn}))
  }

  function OnPacketSent(cc: Cc, env: Env, e: Epoch, p: SentPacket): Cc {
    Push(if p.countForCc then SetTimer(Announce(cc, e, p), env) else cc, e, p)
  }

  function DetectIn(cc: Cc, env: Env, e: Epoch): Cc {
    var s, c := cc.spaces.Get(e), ClockOf(cc, env);
    Change(cc, e, Detect(s, c), DetectCalls(s, c))
  }

  /** Largest acknowledged, acknowledgement, round trip time and ECN, before loss detection. */
  function Absorb(cc: Cc, env: Env, e: Epoch, f: AckFrame): Cc
    requires WellFormed(f)
  {
    var s := UpdateLargest(cc.spaces.Get(e), f.largest);
    var result := AckResult(Newly(s.sent, Ranges(f)));
    var cc1 := Change(cc, e, OnAck(s, Ranges(f)), AckCalls(s, Ranges(f)));
    if result.None? then cc1
    else
      var cc2 := if result.value.largest == f.largest && result.value.includeAckEliciting
                 then cc1.(rtt := env.sample) else cc1;
      if f.ecn.Some? then
        Change(cc2, e, cc2.spaces.Get(e), [Ecn(Index(e), f.ecn.value.ce, result.value.timeSent, env.now)])
      else cc2
  }

  function Index(e: Epoch): nat { match e case Initial => 0 case Handshake => 1 case Data => 2 }

  predicate HasNew(cc: Cc, e: Epoch, f: AckFrame)
    requires WellFormed(f)
  {
    Newly(cc.spaces.Get(e).sent, Ranges(f)) != []
  }

  function OnAckRcvd(cc: Cc, env: Env, e: Epoch, f: AckFrame): Cc
    requires WellFormed(f)
  {
    var cc1 := Absorb(cc, env, e, f);
    if !HasNew(cc, e, f) then cc1
    else
      var cc2 := DetectIn(cc1, env, e);
      SetTimer(if PeerCompleted(env.path) then cc2.(pto := 0) else cc2, env)
  }

  function Ask(cc: Cc, e: Epoch): Cc { cc.(need := cc.need.Set(e, cc.need.Get(e) + 1)) }

  /** Asks for one probe packet. */
  function Probe(cc: Cc, env: Env): Cc {
    var pto := PtoTimeAndEpoch(cc, env);
    if NoElicit(cc.spaces) then Ask(cc, if env.path.hasHandshakeKey then Handshake else Initial)
    else if pto.Some? then Ask(cc, pto.value.1) else cc
  }

  function OnTimeout(cc: Cc, env: Env): Cc {
    var loss := LossTimeAndEpoch(cc.spaces);
    if loss.Some? then SetTimer(DetectIn(cc, env, loss.value.1), env)
    else SetTimer(Probe(cc, env).(pto := cc.pto + 1), env)
  }

  function OnDatagram(cc: Cc, env: Env): Cc {
    if !env.path.atLimit then cc
    else
      var cc1 := SetTimer(cc, env);
      if cc1.timer.Some? && cc1.timer.value < env.now then OnTimeout(cc1, env) else cc1
  }

  function DiscardEpoch(cc: Cc, env: Env, e: Epoch): Cc {
    var s := cc.spaces.Get(e);
    SetTimer(Change(cc, e, Discard(s), DiscardCalls(s)).(timer := None, pto := 0), env)
  }

  // ---------------------------------------------------------------- the shared handle

  datatype Event =
    | PktSent(epoch: Epoch, packet: SentPacket)
    | AckRcvd(epoch: Epoch, frame: AckFrame)
    | PktRcvd(ackEliciting: bool)
    | Tick
    | DropEpoch(epoch: Epoch)

  /**
   * What the callers keep to: numbers ascend in each space, what asks for an acknowledgement is in
   * flight, ranges stay above zero, and the application space is never discarded.
   */
  predicate Possible(cc: Cc, env: Env, step: Event) {
    match step
    case PktSent(e, p) =>
      && p.state == Inflight && p.timeSent == env.now
      && (p.ackEliciting ==> p.countForCc)
      && forall n :: n in cc.log.Get(e) ==> n < p.pn
    case AckRcvd(_, f) => WellFormed(f)
    case DropEpoch(e) => e != Data
    case _ => true
  }

  function Next(cc: Cc, env: Env, step: Event): Cc {
    if !Possible(cc, env, step) then cc
    else
      match step
      case PktSent(e, p) =>
        var cc1 := OnPacketSent(cc, env, e, p);
        if e == Handshake && !env.path.isServer then DiscardEpoch(cc1, env, Initial) else cc1
      case AckRcvd(e, f) =>
        var cc1 := OnAckRcvd(cc, env, e, f);
        if e == Handshake && env.path.isServer then DiscardEpoch(cc1, env, Initial) else cc1
      case PktRcvd(eliciting) => if eliciting then OnDatagram(cc, env) else cc
      case Tick => if cc.timer.Some? && cc.timer.value <= env.now then OnTimeout(cc, env) else cc
      case DropEpoch(e) => DiscardEpoch(cc, env, e)
  }

  function Run(rtt: Rtt, steps: seq<(Env, Event)>): Cc {
    if steps == [] then New(rtt)
    else Next(Run(rtt, steps[..|steps| - 1]), steps[|steps| - 1].0, steps[|steps| - 1].1)
  }
}
