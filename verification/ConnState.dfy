/**
 * The life cycle of a connection (`qconnection/src/state.rs`) and the event filter built on it
 * (`qconnection/src/events.rs`), with any number of threads interleaved at the granularity of one
 * atomic load, one compare-and-exchange, one semaphore update and one forwarded event.
 */
module ConnState {
  import opened Prelude

  // ---------------------------------------------------------------- state codes

  datatype State =
    | Attempted | HandshakeStarted | HandshakeComplete | PeerValidated | EarlyWrite
    | HandshakeConfirmed | Closing | Draining | Closed

  function Encode(s: State): nat {
    match s
    case Attempted => 1
    case HandshakeStarted => 2
    case HandshakeComplete => 3
    case PeerValidated => 5
    case EarlyWrite => 6
    case HandshakeConfirmed => 7
    case Closing => 8
    case Draining => 9
    case Closed => 10
  }

  function Decode(code: nat): Option<State> {
    if code == 1 then Some(Attempted)
    else if code == 2 then Some(HandshakeStarted)
    else if code == 3 then Some(HandshakeComplete)
    else if code == 5 then Some(PeerValidated)
    else if code == 6 then Some(EarlyWrite)
    else if code == 7 then Some(HandshakeConfirmed)
    else if code == 8 then Some(Closing)
    else if code == 9 then Some(Draining)
    else if code == 10 then Some(Closed)
    else None
  }

  /** The two tables are inverse, and no code is given twice. */
  lemma CodesAgree(s: State, code: nat)
    ensures Decode(code) == Some(s) <==> code == Encode(s)
  {
  }

  // ---------------------------------------------------------------- events and threads

  datatype Event =
    | Handshaked | ProbedNewPath | PathInactivated | Failed | ApplicationClose | ConnectionClosed | Terminated

  /** The state an event drives the connection to; path events drive it nowhere. */
  function Target(e: Event): Option<State> {
    match e
    case Handshaked => Some(HandshakeConfirmed)
    case Failed => Some(Closing)
    case ApplicationClose => Some(Closing)
    case ConnectionClosed => Some(Draining)
    case Terminated => Some(Closed)
    case _ => None
  }

  predicate Drives(e: Event) { Target(e).Some? }

  function Code(e: Event): nat
    requires Drives(e)
  {
    Encode(Target(e).value)
  }

  /** The events whose winner closes one semaphore and then opens the other. */
  predicate Terminates(e: Event) { e == Failed || e == ApplicationClose || e == ConnectionClosed }

  /** Where one call stands: an `emit`, or the first path's attempt to leave the initial state. */
  datatype Thread =
    | Attempting
    | Loading(event: Event)
    | Looping(event: Event, seen: nat)
    | Winning(event: Event)
    | Releasing(event: Event)
    | Forwarding(event: Event)
    | Done

  const PERMITS: nat := 1024

  /** `wins` lists the codes stored by successful exchanges, `raw` the events forwarded. */
  datatype Conn = Conn(
    code: nat, threads: seq<Thread>, wins: seq<nat>, raw: seq<Event>,
    handshaked: nat, handshakedOpen: bool, terminated: nat)

  const FRESH := Conn(0, [], [], [], 0, true, 0)

  function Start(e: Event): Thread { if Drives(e) then Loading(e) else Forwarding(e) }

  function Store(c: Conn, code: nat): Conn { c.(code := code, wins := c.wins + [code]) }

  /** The winner's first semaphore update: handshake waiters are let go, or turned away. */
  function Announce(c: Conn, e: Event): Conn {
    if e == Handshaked then c.(handshaked := c.handshaked + PERMITS)
    else if Terminates(e) then c.(handshakedOpen := false)
    else c
  }

  /** The second one: waiters for the end are let go. */
  function Release(c: Conn): Conn { c.(terminated := c.terminated + PERMITS) }

  function Settle(c: Conn, i: nat, t: Thread): Conn
    requires i < |c.threads|
  {
    c.(threads := c.threads[i := t])
  }

  predicate Valid(t: Thread) {
    ((t.Loading? || t.Looping? || t.Winning?) ==> Drives(t.event)) && (t.Releasing? ==> Terminates(t.event))
  }

  predicate Valids(ts: seq<Thread>) { forall i :: 0 <= i < |ts| ==> Valid(ts[i]) }

  /** One atomic step of thread `i`. */
  function StepThread(c: Conn, i: nat): Conn
    requires i < |c.threads| && Valid(c.threads[i])
  {
    match c.threads[i]
    case Attempting => Settle(if c.code == 0 then Store(c, Encode(Attempted)) else c, i, Done)
    case Loading(e) => Settle(c, i, Looping(e, c.code))
    case Looping(e, seen) =>
      if Code(e) <= seen then Settle(c, i, if e == Terminated then Forwarding(e) else Done)
      else if c.code == seen then Settle(Store(c, Code(e)), i, Winning(e))
      else Settle(c, i, Looping(e, c.code))
    case Winning(e) => Settle(Announce(c, e), i, if Terminates(e) then Releasing(e) else Forwarding(e))
    case Releasing(e) => Settle(Release(c), i, Forwarding(e))
    case Forwarding(e) => Settle(c.(raw := c.raw + [e]), i, Done)
    case Done => c
  }

  datatype Action = Attempt | Emit(event: Event) | Advance(thread: nat)

  function Next(c: Conn, a: Action): Conn {
    match a
    case Attempt => c.(threads := c.threads + [Attempting])
    case Emit(e) => c.(threads := c.threads + [Start(e)])
    case Advance(i) => if i < |c.threads| && Valid(c.threads[i]) then StepThread(c, i) else c
  }

  function Run(actions: seq<Action>): Conn {
    if actions == [] then FRESH else Next(Run(actions[..|actions| - 1]), actions[|actions| - 1])
  }

  // ---------------------------------------------------------------- the state code only grows

  predicate Increasing(xs: seq<nat>) { forall i, j :: 0 <= i < j < |xs| ==> xs[i] < xs[j] }

  /** The code is the last one stored, and no thread has seen more than it. */
  predicate CodeOk(c: Conn) {
    && Increasing(c.wins)
    && (c.code == if c.wins == [] then 0 else c.wins[|c.wins| - 1])
    && Valids(c.threads)
    && (forall i :: 0 <= i < |c.threads| && c.threads[i].Looping? ==> c.threads[i].seen <= c.code)
  }

  lemma SettleKeepsCode(c: Conn, i: nat, t: Thread)
    requires CodeOk(c) && i < |c.threads| && Valid(t) && (t.Looping? ==> t.seen <= c.code)
    ensures CodeOk(Settle(c, i, t))
  {
  }

  lemma StoreKeepsCode(c: Conn, code: nat)
    requires CodeOk(c) && c.code < code
    ensures CodeOk(Store(c, code))
  {
  }

  lemma LoopKeepsCode(c: Conn, i: nat)
    requires CodeOk(c) && i < |c.threads| && c.threads[i].Looping?
    ensures CodeOk(StepThread(c, i))
  {
    var e, seen := c.threads[i].event, c.threads[i].seen;
    if Code(e) <= seen {
      SettleKeepsCode(c, i, if e == Terminated then Forwarding(e) else Done);
    } else if c.code == seen {
      StoreKeepsCode(c, Code(e));
      SettleKeepsCode(Store(c, Code(e)), i, Winning(e));
    } else {
      SettleKeepsCode(c, i, Looping(e, c.code));
    }
  }

  lemma AttemptKeepsCode(c: Conn, i: nat)
    requires CodeOk(c) && i < |c.threads| && c.threads[i].Attempting?
    ensures CodeOk(StepThread(c, i))
  {
    if c.code == 0 {
      StoreKeepsCode(c, Encode(Attempted));
      SettleKeepsCode(Store(c, Encode(Attempted)), i, Done);
    } else {
      SettleKeepsCode(c, i, Done);
    }
  }

  lemma StepKeepsCode(c: Conn, i: nat)
    requires CodeOk(c) && i < |c.threads|
    ensures CodeOk(StepThread(c, i))
  {
    match c.threads[i]
    case Attempting => AttemptKeepsCode(c, i);
    case Loading(e) => SettleKeepsCode(c, i, Looping(e, c.code));
    case Looping(_, _) => LoopKeepsCode(c, i);
    case Winning(e) => SettleKeepsCode(Announce(c, e), i, if Terminates(e) then Releasing(e) else Forwarding(e));
    case Releasing(e) => SettleKeepsCode(Release(c), i, Forwarding(e));
    case Forwarding(e) => SettleKeepsCode(c.(raw := c.raw + [e]), i, Done);
    case Done =>
  }

  /** A step stores nothing, or one larger code. */
  lemma NextKeepsCode(c: Conn, a: Action)
    requires CodeOk(c)
    ensures CodeOk(Next(c, a))
    ensures || (Next(c, a).wins == c.wins && Next(c, a).code == c.code)
            || (Next(c, a).wins == c.wins + [Next(c, a).code] && c.code < Next(c, a).code)
  {
    if a.Advance? && a.thread < |c.threads| { StepKeepsCode(c, a.thread); }
  }

  // ---------------------------------------------------------------- every call ends

  /** How many steps a call can still take. */
  function Budget(t: Thread): nat
    requires Valid(t)
  {
    match t
    case Attempting => 1
    case Loading(e) => Code(e) + 5
    case Looping(e, seen) => (if seen < Code(e) then Code(e) - seen else 0) + 4
    case Winning(_) => 3
    case Releasing(_) => 2
    case Forwarding(_) => 1
    case Done => 0
  }

  /** Each own step uses budget up: a failed exchange has seen a larger code. */
  lemma StepShrinks(c: Conn, i: nat)
    requires CodeOk(c) && i < |c.threads| && c.threads[i] != Done
    ensures i < |StepThread(c, i).threads| && Valid(StepThread(c, i).threads[i])
    ensures Budget(StepThread(c, i).threads[i]) < Budget(c.threads[i])
  {
  }

  lemma OthersStay(c: Conn, a: Action, i: nat)
    requires i < |c.threads| && a != Advance(i)
    ensures |c.threads| <= |Next(c, a).threads| && Next(c, a).threads[i] == c.threads[i]
  {
  }

  predicate Moves(c: Conn, a: Action, i: nat) { a == Advance(i) && i < |c.threads| && c.threads[i] != Done }

  /** The steps that the `i`-th call has taken itself. */
  function OwnSteps(actions: seq<Action>, i: nat): nat {
    if actions == [] then 0
    else
      var before := actions[..|actions| - 1];
      OwnSteps(before, i) + if Moves(Run(before), actions[|actions| - 1], i) then 1 else 0
  }

  lemma {:induction false} RunKeepsCode(actions: seq<Action>)
    ensures CodeOk(Run(actions))
  {
    if actions != [] {
      RunKeepsCode(actions[..|actions| - 1]);
      NextKeepsCode(Run(actions[..|actions| - 1]), actions[|actions| - 1]);
    }
  }

  /** Steps taken and steps left never exceed this; nothing is taken before the call starts. */
  ghost predicate InBudget(steps: nat, c: Conn, i: nat) {
    if i < |c.threads| then Valid(c.threads[i]) && steps + Budget(c.threads[i]) <= MAX_STEPS else steps == 0
  }

  const MAX_STEPS: nat := 15

  lemma BudgetStep(c: Conn, a: Action, i: nat, steps: nat)
    requires CodeOk(c) && InBudget(steps, c, i)
    ensures InBudget(steps + if Moves(c, a, i) then 1 else 0, Next(c, a), i)
  {
    if Moves(c, a, i) {
      StepShrinks(c, i);
    } else if i < |c.threads| && a != Advance(i) {
      OthersStay(c, a, i);
    }
  }

  /** Whatever the other threads do, a call takes at most fifteen steps of its own. */
  lemma {:induction false} CallsEnd(actions: seq<Action>, i: nat)
    ensures OwnSteps(actions, i) <= MAX_STEPS && InBudget(OwnSteps(actions, i), Run(actions), i)
  {
    if actions != [] {
      var before := actions[..|actions| - 1];
      CallsEnd(before, i);
      RunKeepsCode(before);
      BudgetStep(Run(before), actions[|actions| - 1], i, OwnSteps(before, i));
    }
  }

  // ---------------------------------------------------------------- the filter

  function Holds(t: Thread, code: nat): nat {
    if (t.Winning? || t.Releasing? || t.Forwarding?) && Drives(t.event) && Code(t.event) == code then 1 else 0
  }

  /** Calls that have won the exchange to `code` and not yet forwarded their event. */
  function Holding(ts: seq<Thread>, code: nat): nat {
    if ts == [] then 0 else Holding(ts[..|ts| - 1], code) + Holds(ts[|ts| - 1], code)
  }

  function Seen(raw: seq<Event>, code: nat): nat {
    if raw == [] then 0
    else
      var e := raw[|raw| - 1];
      Seen(raw[..|raw| - 1], code) + if Drives(e) && Code(e) == code then 1 else 0
  }

  function Won(wins: seq<nat>, code: nat): nat {
    if wins == [] then 0 else Won(wins[..|wins| - 1], code) + if wins[|wins| - 1] == code then 1 else 0
  }

  /** Every filtered event is backed by one win; only the code of `Terminated` passes without. */
  ghost predicate FilterOk(c: Conn) {
    forall code: nat :: code != Encode(Attempted) && code != Encode(Closed) ==> Balanced(c, code)
  }

  lemma {:induction false} HoldingUpdate(ts: seq<Thread>, i: nat, t: Thread, code: nat)
    requires i < |ts|
    ensures Holding(ts[i := t], code) == Holding(ts, code) - Holds(ts[i], code) + Holds(t, code)
  {
    var front := ts[..|ts| - 1];
    if i == |front| {
      assert ts[i := t][..|ts| - 1] == front;
    } else {
      HoldingUpdate(front, i, t, code);
      assert ts[i := t][..|ts| - 1] == front[i := t];
    }
  }

  lemma HoldingSnoc(ts: seq<Thread>, t: Thread, code: nat)
    ensures Holding(ts + [t], code) == Holding(ts, code) + Holds(t, code)
  {
    assert (ts + [t])[..|ts|] == ts;
  }

  lemma SeenSnoc(raw: seq<Event>, e: Event, code: nat)
    ensures Seen(raw + [e], code) == Seen(raw, code) + if Drives(e) && Code(e) == code then 1 else 0
  {
    assert (raw + [e])[..|raw|] == raw;
  }

  lemma WonSnoc(wins: seq<nat>, w: nat, code: nat)
    ensures Won(wins + [w], code) == Won(wins, code) + if w == code then 1 else 0
  {
    assert (wins + [w])[..|wins|] == wins;
  }

  lemma {:induction false} WonOnce(wins: seq<nat>, code: nat)
    requires Increasing(wins)
    ensures Won(wins, code) <= 1
    ensures Won(wins, code) == 1 <==> code in wins
  {
    if wins != [] {
      var front, last := wins[..|wins| - 1], wins[|wins| - 1];
      WonOnce(front, code);
      assert wins == front + [last];
      if last == code { assert code !in front; }
    }
  }

  ghost predicate Balanced(c: Conn, code: nat) {
    Holding(c.threads, code) + Seen(c.raw, code) == Won(c.wins, code)
  }

  lemma SettleBalance(c: Conn, i: nat, t: Thread, code: nat)
    requires i < |c.threads|
    requires Holding(c.threads, code) - Holds(c.threads[i], code) + Holds(t, code) + Seen(c.raw, code)
          == Won(c.wins, code)
    ensures Balanced(Settle(c, i, t), code)
  {
    HoldingUpdate(c.threads, i, t, code);
  }

  lemma LoopKeepsBalance(c: Conn, i: nat, code: nat)
    requires i < |c.threads| && c.threads[i].Looping? && Valid(c.threads[i]) && code != Encode(Closed)
    requires Balanced(c, code)
    ensures Balanced(StepThread(c, i), code)
  {
    var e, seen := c.threads[i].event, c.threads[i].seen;
    assert Holds(c.threads[i], code) == 0;
    if Code(e) <= seen {
      SettleBalance(c, i, if e == Terminated then Forwarding(e) else Done, code);
    } else if c.code == seen {
      WonSnoc(c.wins, Code(e), code);
      SettleBalance(Store(c, Code(e)), i, Winning(e), code);
    } else {
      SettleBalance(c, i, Looping(e, c.code), code);
    }
  }

  /** The three stages between winning and forwarding hold the same code. */
  lemma StagesHold(e: Event, code: nat)
    ensures Holds(Forwarding(e), code) == Holds(Winning(e), code) == Holds(Releasing(e), code)
    ensures Holds(Forwarding(e), code) == if Drives(e) && Code(e) == code then 1 else 0
  {
  }

  /** A semaphore update and a move between those stages. */
  lemma StageKeepsBalance(c: Conn, c1: Conn, i: nat, t: Thread, code: nat)
    requires i < |c.threads| && Balanced(c, code)
    requires c1.threads == c.threads && c1.raw == c.raw && c1.wins == c.wins
    requires Holds(t, code) == Holds(c.threads[i], code)
    ensures Balanced(Settle(c1, i, t), code)
  {
    SettleBalance(c1, i, t, code);
  }

  lemma ForwardKeepsBalance(c: Conn, i: nat, code: nat)
    requires i < |c.threads| && c.threads[i].Forwarding? && Balanced(c, code)
    ensures Balanced(StepThread(c, i), code)
  {
    var e := c.threads[i].event;
    StagesHold(e, code);
    SeenSnoc(c.raw, e, code);
    SettleBalance(c.(raw := c.raw + [e]), i, Done, code);
  }

  lemma WinnerKeepsBalance(c: Conn, i: nat, code: nat)
    requires i < |c.threads| && Valid(c.threads[i]) && (c.threads[i].Winning? || c.threads[i].Releasing?)
    requires Balanced(c, code)
    ensures Balanced(StepThread(c, i), code)
  {
    var e := c.threads[i].event;
    StagesHold(e, code);
    if c.threads[i].Winning? {
      StageKeepsBalance(c, Announce(c, e), i, if Terminates(e) then Releasing(e) else Forwarding(e), code);
    } else {
      StageKeepsBalance(c, Release(c), i, Forwarding(e), code);
    }
  }

  /** One thread's step keeps one code's balance. */
  lemma StepKeepsBalance(c: Conn, i: nat, code: nat)
    requires i < |c.threads| && Valid(c.threads[i]) && code != Encode(Attempted) && code != Encode(Closed)
    requires Balanced(c, code)
    ensures Balanced(StepThread(c, i), code)
  {
    match c.threads[i]
    case Attempting =>
      WonSnoc(c.wins, Encode(Attempted), code);
      SettleBalance(if c.code == 0 then Store(c, Encode(Attempted)) else c, i, Done, code);
    case Loading(e) => SettleBalance(c, i, Looping(e, c.code), code);
    case Looping(_, _) => LoopKeepsBalance(c, i, code);
    case Forwarding(_) => ForwardKeepsBalance(c, i, code);
    case Done =>
    case _ => WinnerKeepsBalance(c, i, code);
  }

  lemma NextKeepsFilter(c: Conn, a: Action)
    requires FilterOk(c)
    ensures FilterOk(Next(c, a))
  {
    forall code: nat | code != Encode(Attempted) && code != Encode(Closed) ensures Balanced(Next(c, a), code) {
      assert Balanced(c, code);
      match a
      case Attempt => HoldingSnoc(c.threads, Attempting, code);
      case Emit(e) => HoldingSnoc(c.threads, Start(e), code);
      case Advance(i) => if i < |c.threads| && Valid(c.threads[i]) { StepKeepsBalance(c, i, code); }
    }
  }

  lemma {:induction false} RunKeepsFilter(actions: seq<Action>)
    ensures FilterOk(Run(actions))
  {
    if actions != [] {
      RunKeepsFilter(actions[..|actions| - 1]);
      NextKeepsFilter(Run(actions[..|actions| - 1]), actions[|actions| - 1]);
    }
  }

  lemma {:induction false} NoneHolding(ts: seq<Thread>, code: nat)
    requires forall i :: 0 <= i < |ts| ==> ts[i] == Done
    ensures Holding(ts, code) == 0
  {
    if ts != [] { NoneHolding(ts[..|ts| - 1], code); }
  }

  lemma OnceFor(actions: seq<Action>, code: nat)
    requires code != Encode(Attempted) && code != Encode(Closed)
    ensures var c := Run(actions);
            && Increasing(c.wins) && Seen(c.raw, code) <= 1
            && ((forall i :: 0 <= i < |c.threads| ==> c.threads[i] == Done) ==>
                  (Seen(c.raw, code) == 1 <==> code in c.wins))
  {
    var c := Run(actions);
    RunKeepsCode(actions);
    RunKeepsFilter(actions);
    assert Balanced(c, code);
    WonOnce(c.wins, code);
    if forall i :: 0 <= i < |c.threads| ==> c.threads[i] == Done { NoneHolding(c.threads, code); }
  }

  /**
   * Under every interleaving the stored codes strictly increase and the application sees at most
   * one `Handshaked`, at most one of `ApplicationClose` and `Failed`, and at most one close by the
   * peer; once all calls are done it has seen each exactly when the state was entered.
   */
  lemma AtMostOnce(actions: seq<Action>)
    ensures var c := Run(actions);
            && Increasing(c.wins)
            && Seen(c.raw, Encode(HandshakeConfirmed)) <= 1
            && Seen(c.raw, Encode(Closing)) <= 1
            && Seen(c.raw, Encode(Draining)) <= 1
            && ((forall i :: 0 <= i < |c.threads| ==> c.threads[i] == Done) ==>
                  && (Seen(c.raw, Encode(HandshakeConfirmed)) == 1 <==> Encode(HandshakeConfirmed) in c.wins)
                  && (Seen(c.raw, Encode(Closing)) == 1 <==> Encode(Closing) in c.wins)
                  && (Seen(c.raw, Encode(Draining)) == 1 <==> Encode(Draining) in c.wins))
  {
    OnceFor(actions, Encode(HandshakeConfirmed));
    OnceFor(actions, Encode(Closing));
    OnceFor(actions, Encode(Draining));
  }

  // ---------------------------------------------------------------- waiters are released first

  /** The semaphores stand as the event promises. */
  predicate Released(c: Conn, e: Event) {
    (e == Handshaked ==> c.handshaked > 0) && (Terminates(e) ==> c.terminated > 0 && !c.handshakedOpen)
  }

  /** Handshake waiters are turned away before those who wait for the end are let go. */
  predicate ReleaseOk(c: Conn) {
    && (forall i :: 0 <= i < |c.threads| && c.threads[i].Releasing? ==> !c.handshakedOpen)
    && (forall i :: 0 <= i < |c.threads| && c.threads[i].Forwarding? ==> Released(c, c.threads[i].event))
    && (forall j :: 0 <= j < |c.raw| ==> Released(c, c.raw[j]))
    && (c.terminated > 0 ==> !c.handshakedOpen)
  }

  predicate NotLess(c: Conn, c': Conn) {
    c.handshaked <= c'.handshaked && c.terminated <= c'.terminated && (c'.handshakedOpen ==> c.handshakedOpen)
  }

  lemma SettleKeepsRelease(c: Conn, c1: Conn, i: nat, t: Thread)
    requires ReleaseOk(c) && i < |c.threads| && NotLess(c, c1) && c1.threads == c.threads
    requires c1.raw == c.raw || (c.threads[i].Forwarding? && c1.raw == c.raw + [c.threads[i].event])
    requires t.Forwarding? ==> Released(c1, t.event)
    requires t.Releasing? || c1.terminated > 0 ==> !c1.handshakedOpen
    ensures ReleaseOk(Settle(c1, i, t))
  {
  }

  lemma StepKeepsRelease(c: Conn, i: nat)
    requires ReleaseOk(c) && i < |c.threads| && Valid(c.threads[i])
    ensures ReleaseOk(StepThread(c, i))
  {
    match c.threads[i]
    case Attempting => SettleKeepsRelease(c, if c.code == 0 then Store(c, Encode(Attempted)) else c, i, Done);
    case Loading(e) => SettleKeepsRelease(c, c, i, Looping(e, c.code));
    case Looping(e, seen) =>
      if Code(e) <= seen {
        SettleKeepsRelease(c, c, i, if e == Terminated then Forwarding(e) else Done);
      } else if c.code == seen {
        SettleKeepsRelease(c, Store(c, Code(e)), i, Winning(e));
      } else {
        SettleKeepsRelease(c, c, i, Looping(e, c.code));
      }
    case Winning(e) => SettleKeepsRelease(c, Announce(c, e), i, if Terminates(e) then Releasing(e) else Forwarding(e));
    case Releasing(e) => SettleKeepsRelease(c, Release(c), i, Forwarding(e));
    case Forwarding(e) => SettleKeepsRelease(c, c.(raw := c.raw + [e]), i, Done);
    case Done =>
  }

  lemma NextKeepsRelease(c: Conn, a: Action)
    requires ReleaseOk(c)
    ensures ReleaseOk(Next(c, a))
  {
    if a.Advance? && a.thread < |c.threads| && Valid(c.threads[a.thread]) { StepKeepsRelease(c, a.thread); }
  }

  /** Under every interleaving waiters have been released before the application hears of it. */
  lemma {:induction false} ReleasedBeforeForwarded(actions: seq<Action>)
    ensures ReleaseOk(Run(actions))
  {
    if actions != [] {
      ReleasedBeforeForwarded(actions[..|actions| - 1]);
      NextKeepsRelease(Run(actions[..|actions| - 1]), actions[|actions| - 1]);
    }
  }
}
