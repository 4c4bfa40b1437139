/** The order of the life cycle and what the event filter lets through, told in states, not in codes. */
module ConnLaws {
  import opened Prelude
  import opened ConnState

  /** How many states of the life cycle come before this one; any of them may be skipped. */
  function Before(s: State): nat {
    match s
    case Attempted => 0
    case HandshakeStarted => 1
    case HandshakeComplete => 2
    case PeerValidated => 3
    case EarlyWrite => 4
    case HandshakeConfirmed => 5
    case Closing => 6
    case Draining => 7
    case Closed => 8
  }

  predicate Precedes(a: State, b: State) { Before(a) < Before(b) }

  /** The codes are in the order of the life cycle, and zero, which stands for no state, is below them all. */
  lemma CodesFollowLifeCycle(a: State, b: State)
    ensures Encode(a) < Encode(b) <==> Precedes(a, b)
    ensures 0 < Encode(a) && Decode(Encode(a)) == Some(a) && Decode(0) == None
  {
  }

  /** The state in force, absent before the first attempt. */
  function Current(c: Conn): Option<State> { Decode(c.code) }

  /** Everything stored is the code of a state. */
  predicate Meaningful(c: Conn) { forall i :: 0 <= i < |c.wins| ==> Decode(c.wins[i]).Some? }

  /** What holds in every reachable state. */
  predicate Sound(c: Conn) { CodeOk(c) && Meaningful(c) }

  lemma NextIsMeaningful(c: Conn, a: Action)
    requires Meaningful(c)
    ensures Meaningful(Next(c, a))
  {
  }

  lemma {:induction false} RunIsSound(actions: seq<Action>)
    ensures Sound(Run(actions))
  {
    RunKeepsCode(actions);
    if actions != [] {
      RunIsSound(actions[..|actions| - 1]);
      NextIsMeaningful(Run(actions[..|actions| - 1]), actions[|actions| - 1]);
    }
  }

  /** The states entered are in the order of the life cycle, the last one in force. */
  predicate InOrder(c: Conn) {
    && (forall i :: 0 <= i < |c.wins| ==> Decode(c.wins[i]).Some?)
    && (forall i, j :: 0 <= i < j < |c.wins| ==> Precedes(Decode(c.wins[i]).value, Decode(c.wins[j]).value))
    && Current(c) == if c.wins == [] then None else Decode(c.wins[|c.wins| - 1])
  }

  lemma SoundInOrder(c: Conn)
    requires Sound(c)
    ensures InOrder(c)
  {
    forall i, j | 0 <= i < j < |c.wins| ensures Precedes(Decode(c.wins[i]).value, Decode(c.wins[j]).value) {
      CodesFollowLifeCycle(Decode(c.wins[i]).value, Decode(c.wins[j]).value);
    }
  }

  /** Under every interleaving. */
  lemma StatesInOrder(actions: seq<Action>)
    ensures InOrder(Run(actions))
  {
    RunIsSound(actions);
    SoundInOrder(Run(actions));
  }

  // ---------------------------------------------------------------- a call that nobody disturbs

  /** Five steps of one thread, with no other thread moving. */
  function Alone(c: Conn, i: nat): Conn {
    Next(Next(Next(Next(Next(c, Advance(i)), Advance(i)), Advance(i)), Advance(i)), Advance(i))
  }

  /** The event is forwarded and its state entered, if the connection is not there or beyond; else nothing happens. */
  predicate Reaches(c: Conn, c': Conn, e: Event, goal: State) {
    if Current(c).None? || Precedes(Current(c).value, goal)
    then c'.raw == c.raw + [e] && Current(c') == Some(goal)
    else c'.raw == c.raw && Current(c') == Current(c)
  }

  lemma AloneLoses(c: Conn, e: Event)
    requires CodeOk(c) && Drives(e) && Code(e) <= c.code
    ensures var c' := Alone(Next(c, Emit(e)), |c.threads|);
            c'.code == c.code && c'.raw == c.raw + if e == Terminated then [e] else []
  {
    var i, c0 := |c.threads|, Next(c, Emit(e));
    var c1 := Next(c0, Advance(i));
    assert c1.threads[i] == Looping(e, c.code) && c1.code == c.code && c1.raw == c.raw;
    var c2 := Next(c1, Advance(i));
    assert c2.threads[i] == if e == Terminated then Forwarding(e) else Done;
    assert c2.code == c.code && c2.raw == c.raw;
    var c3 := Next(c2, Advance(i));
    assert c3.threads[i] == Done && c3.code == c.code;
    assert Next(c3, Advance(i)) == c3;
  }

  lemma WinnerForwards(c: Conn, i: nat, e: Event)
    requires i < |c.threads| && c.threads[i] == Winning(e) && Drives(e)
    ensures var c' := Next(Next(Next(c, Advance(i)), Advance(i)), Advance(i));
            c'.code == c.code && c'.raw == c.raw + [e]
  {
    var c1 := Next(c, Advance(i));
    assert c1.code == c.code && c1.raw == c.raw;
    assert c1.threads[i] == if Terminates(e) then Releasing(e) else Forwarding(e);
    var c2 := Next(c1, Advance(i));
    assert c2.code == c.code && c2.threads[i] == if Terminates(e) then Forwarding(e) else Done;
  }

  lemma AloneWins(c: Conn, e: Event)
    requires CodeOk(c) && Drives(e) && c.code < Code(e)
    ensures var c' := Alone(Next(c, Emit(e)), |c.threads|); c'.code == Code(e) && c'.raw == c.raw + [e]
  {
    var i, c0 := |c.threads|, Next(c, Emit(e));
    var c1 := Next(c0, Advance(i));
    assert c1.threads[i] == Looping(e, c.code) && c1.code == c.code && c1.raw == c.raw;
    var c2 := Next(c1, Advance(i));
    assert c2.threads[i] == Winning(e) && c2.code == Code(e) && c2.raw == c.raw;
    WinnerForwards(c2, i, e);
  }

  lemma AloneReaches(c: Conn, e: Event, goal: State)
    requires Sound(c) && Drives(e) && Target(e) == Some(goal) && e != Terminated
    ensures Reaches(c, Alone(Next(c, Emit(e)), |c.threads|), e, goal)
  {
    CodesFollowLifeCycle(goal, goal);
    if Current(c).Some? {
      CodesAgree(Current(c).value, c.code);
      CodesFollowLifeCycle(Current(c).value, goal);
    }
    if c.code < Code(e) {
      AloneWins(c, e);
    } else {
      AloneLoses(c, e);
    }
  }

  lemma EndIsForwarded(c: Conn)
    requires Sound(c)
    ensures var c' := Alone(Next(c, Emit(Terminated)), |c.threads|);
            c'.raw == c.raw + [Terminated] && Current(c') == Some(Closed)
  {
    CodesFollowLifeCycle(Closed, Closed);
    if c.code < Code(Terminated) {
      AloneWins(c, Terminated);
    } else {
      AloneLoses(c, Terminated);
    }
  }

  lemma PathEventPasses(c: Conn, e: Event)
    requires !Drives(e)
    ensures var c' := Alone(Next(c, Emit(e)), |c.threads|); c'.raw == c.raw + [e] && c'.code == c.code
  {
    var i, c0 := |c.threads|, Next(c, Emit(e));
    assert c0.threads[i] == Forwarding(e);
    var c1 := Next(c0, Advance(i));
    assert c1.threads[i] == Done && c1.raw == c.raw + [e];
    assert Next(c1, Advance(i)) == c1;
  }

  /**
   * What `e` does: a handshake leads to `HandshakeConfirmed`, a failure or a local close to
   * `Closing`, a close by the peer to `Draining`, each forwarded exactly if the connection is not
   * there or beyond; the end leads to `Closed` and is always forwarded; path events are forwarded
   * and lead nowhere.
   */
  predicate Answers(c: Conn, c': Conn, e: Event) {
    match e
    case Handshaked => Reaches(c, c', e, HandshakeConfirmed)
    case Failed => Reaches(c, c', e, Closing)
    case ApplicationClose => Reaches(c, c', e, Closing)
    case ConnectionClosed => Reaches(c, c', e, Draining)
    case Terminated => c'.raw == c.raw + [e] && Current(c') == Some(Closed)
    case ProbedNewPath => c'.raw == c.raw + [e] && Current(c') == Current(c)
    case PathInactivated => c'.raw == c.raw + [e] && Current(c') == Current(c)
  }

  lemma AloneAnswers(c: Conn, e: Event)
    requires Sound(c)
    ensures Answers(c, Alone(Next(c, Emit(e)), |c.threads|), e)
  {
    if e == Terminated {
      EndIsForwarded(c);
    } else if Drives(e) {
      AloneReaches(c, e, Target(e).value);
    } else {
      PathEventPasses(c, e);
    }
  }

  /** From every reachable state, with no other thread moving. */
  lemma UndisturbedEmit(actions: seq<Action>, e: Event)
    ensures Answers(Run(actions), Alone(Next(Run(actions), Emit(e)), |Run(actions).threads|), e)
  {
    RunIsSound(actions);
    AloneAnswers(Run(actions), e);
  }

  /** So the peer's close after a local one is news. */
  lemma PeerCloseIsNews(actions: seq<Action>)
    requires Current(Run(actions)) == Some(Closing)
    ensures var c' := Alone(Next(Run(actions), Emit(ConnectionClosed)), |Run(actions).threads|);
            c'.raw == Run(actions).raw + [ConnectionClosed] && Current(c') == Some(Draining)
  {
    UndisturbedEmit(actions, ConnectionClosed);
  }

  // ---------------------------------------------------------------- events that come too late

  /** The connection is already where the event would lead it, or beyond. */
  predicate TooLate(s: State, e: Event) {
    match e
    case Handshaked => s == HandshakeConfirmed || s == Closing || s == Draining || s == Closed
    case Failed => s == Closing || s == Draining || s == Closed
    case ApplicationClose => s == Closing || s == Draining || s == Closed
    case ConnectionClosed => s == Draining || s == Closed
    case _ => false
  }

  /** The call has won its state and will forward its event, or is about to. */
  predicate Passes(t: Thread, e: Event) { (t.Winning? || t.Releasing? || t.Forwarding?) && t.event == e }

  /** Every call with `e` from the `n`-th on has seen a state that makes it too late. */
  predicate Stopped(c: Conn, e: Event, n: nat) {
    && CodeOk(c) && Drives(e) && e != Terminated && Code(e) <= c.code
    && forall i :: n <= i < |c.threads| ==>
         !Passes(c.threads[i], e) && (c.threads[i].Looping? && c.threads[i].event == e ==> Code(e) <= c.threads[i].seen)
  }

  lemma StepStaysStopped(c: Conn, e: Event, n: nat, i: nat)
    requires Stopped(c, e, n) && i < |c.threads|
    ensures Stopped(StepThread(c, i), e, n)
  {
    NextKeepsCode(c, Advance(i));
    var c' := StepThread(c, i);
    assert c.code <= c'.code;
    forall j | n <= j < |c'.threads|
      ensures !Passes(c'.threads[j], e)
      ensures c'.threads[j].Looping? && c'.threads[j].event == e ==> Code(e) <= c'.threads[j].seen
    {
      if j != i { assert c'.threads[j] == c.threads[j]; }
    }
  }

  lemma NextStaysStopped(c: Conn, a: Action, e: Event, n: nat)
    requires Stopped(c, e, n)
    ensures Stopped(Next(c, a), e, n)
  {
    NextKeepsCode(c, a);
    if a.Advance? && a.thread < |c.threads| { StepStaysStopped(c, e, n, a.thread); }
  }

  /** The actions `b`, taken from `c` on. */
  function Go(c: Conn, b: seq<Action>): Conn {
    if b == [] then c else Next(Go(c, b[..|b| - 1]), b[|b| - 1])
  }

  lemma {:induction false} RunGoes(a: seq<Action>, b: seq<Action>)
    ensures Run(a + b) == Go(Run(a), b)
  {
    if b == [] {
      assert a + b == a;
    } else {
      RunGoes(a, b[..|b| - 1]);
      assert (a + b)[..|a + b| - 1] == a + b[..|b| - 1];
    }
  }

  lemma {:induction false} StaysStopped(c: Conn, b: seq<Action>, e: Event, n: nat)
    requires Stopped(c, e, n)
    ensures Stopped(Go(c, b), e, n)
  {
    if b != [] {
      StaysStopped(c, b[..|b| - 1], e, n);
      NextStaysStopped(Go(c, b[..|b| - 1]), b[|b| - 1], e, n);
    }
  }

  lemma LateStops(c: Conn, e: Event)
    requires CodeOk(c) && Current(c).Some? && TooLate(Current(c).value, e)
    ensures Stopped(c, e, |c.threads|)
  {
    CodesAgree(Current(c).value, c.code);
  }

  /**
   * Under every interleaving: once the connection is in a state, no call started afterwards with an
   * event that comes too late for it ever wins or forwards it.
   */
  lemma LateIsFiltered(a: seq<Action>, b: seq<Action>, e: Event, i: nat)
    requires Current(Run(a)).Some? && TooLate(Current(Run(a)).value, e)
    requires |Run(a).threads| <= i < |Run(a + b).threads|
    ensures !Passes(Run(a + b).threads[i], e)
  {
    RunKeepsCode(a);
    LateStops(Run(a), e);
    StaysStopped(Run(a), b, e, |Run(a).threads|);
    RunGoes(a, b);
  }
}
