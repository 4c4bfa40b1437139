/**
 * Connection-level flow control (`qbase/src/flow.rs`, section 4 of RFC 9000): the sender with its
 * credits, the receiver with its window, and the two joined by a network.
 */
module FlowSpec {
  import opened Prelude

  // ---------------------------------------------------------------- the sender

  datatype Credit = Credit(available: nat, live: bool)

  /**
   * The controller and every credit it ever lent. `blocked` holds the limits of the DATA_BLOCKED
   * frames sent, `committed` the bytes actually sent under credits.
   */
  datatype Sender = Sender(
    sent: int, max: nat, blocking: bool, open: bool, blocked: seq<nat>, credits: seq<Credit>, committed: nat)

  function NewSender(initial: nat): Sender { Sender(0, initial, false, true, [], [], 0) }

  function IncreaseLimit(s: Sender, max: nat): Sender {
    if s.open && s.max < max then s.(max := max, blocking := false) else s
  }

  /** What a request for `quota` bytes obtains. */
  function Available(s: Sender, quota: nat): int { Min(s.max - s.sent, quota) }

  function Lend(s: Sender, quota: nat): Sender
    requires 0 <= Available(s, quota)
  {
    if !s.open then s
    else
      var n := Available(s, quota);
      var full := s.sent + n == s.max && !s.blocking;
      s.(sent := s.sent + n,
         blocking := s.blocking || full,
         blocked := if full then s.blocked + [s.max] else s.blocked,
         credits := s.credits + [Credit(n, true)])
  }

  function OnError(s: Sender): Sender { s.(open := false) }

  predicate CanPost(s: Sender, id: nat, amount: nat) {
    id < |s.credits| && s.credits[id].live && amount <= s.credits[id].available
  }

  function PostSent(s: Sender, id: nat, amount: nat): Sender
    requires CanPost(s, id, amount)
  {
    s.(credits := s.credits[id := Credit(s.credits[id].available - amount, true)], committed := s.committed + amount)
  }

  predicate CanDrop(s: Sender, id: nat) { id < |s.credits| && s.credits[id].live }

  /** Dropping a credit hands its unused part back, unless the connection has failed. */
  function Refund(s: Sender, id: nat): Sender
    requires CanDrop(s, id)
  {
    s.(credits := s.credits[id := s.credits[id].(live := false)],
       sent := if s.open then s.sent - s.credits[id].available else s.sent)
  }

  /** The unused parts of all live credits. */
  function Unused(cs: seq<Credit>): nat {
    if cs == [] then 0
    else Unused(cs[..|cs| - 1]) + (if cs[|cs| - 1].live then cs[|cs| - 1].available else 0)
  }

  predicate Increasing(xs: seq<nat>) { forall i, j :: 0 <= i < j < |xs| ==> xs[i] < xs[j] }

  /**
   * `sent` is what was committed plus what is out on loan, within the limit; a limit is reported
   * at most once.
   */
  predicate SenderOk(s: Sender) {
    && s.committed + Unused(s.credits) <= s.max
    && (s.open ==> s.sent == s.committed + Unused(s.credits))
    && Increasing(s.blocked)
    && (s.blocking ==> s.blocked != [] && s.blocked[|s.blocked| - 1] == s.max)
    && (!s.blocking ==> forall i :: 0 <= i < |s.blocked| ==> s.blocked[i] < s.max)
  }

  lemma UnusedSnoc(cs: seq<Credit>, c: Credit)
    ensures Unused(cs + [c]) == Unused(cs) + if c.live then c.available else 0
  {
    assert (cs + [c])[..|cs|] == cs;
  }

  lemma {:induction false} UnusedUpdate(cs: seq<Credit>, id: nat, c: Credit)
    requires id < |cs|
    ensures Unused(cs[id := c])
         == Unused(cs) - (if cs[id].live then cs[id].available else 0) + if c.live then c.available else 0
  {
    var front := cs[..|cs| - 1];
    if id == |front| {
      assert cs[id := c][..|cs| - 1] == front;
    } else {
      UnusedUpdate(front, id, c);
      assert cs[id := c][..|cs| - 1] == front[id := c];
    }
  }

  /** A request gets as much of the window as is neither committed nor lent; an exhausted window is reported, once. */
  lemma LendPreserves(s: Sender, quota: nat)
    requires SenderOk(s) && s.open
    ensures 0 <= Available(s, quota) && SenderOk(Lend(s, quota))
    ensures Lend(s, quota).credits
         == s.credits + [Credit(Min(s.max - s.committed - Unused(s.credits), quota), true)]
    ensures Lend(s, quota).sent == s.max ==> s.max in Lend(s, quota).blocked
    ensures |Lend(s, quota).blocked| <= |s.blocked| + 1 && (s.max in s.blocked ==> Lend(s, quota).blocked == s.blocked)
  {
    UnusedSnoc(s.credits, Credit(Available(s, quota), true));
  }

  lemma PostPreserves(s: Sender, id: nat, amount: nat)
    requires SenderOk(s) && CanPost(s, id, amount)
    ensures SenderOk(PostSent(s, id, amount))
  {
    UnusedUpdate(s.credits, id, Credit(s.credits[id].available - amount, true));
  }

  /** A refund never takes `sent` below the bytes committed, so it cannot underflow. */
  lemma RefundPreserves(s: Sender, id: nat)
    requires SenderOk(s) && CanDrop(s, id)
    ensures SenderOk(Refund(s, id))
    ensures s.open ==> s.committed <= Refund(s, id).sent
  {
    UnusedUpdate(s.credits, id, s.credits[id].(live := false));
  }

  // ---------------------------------------------------------------- the receiver

  /** `adverts` holds the limits of the MAX_DATA frames sent. */
  datatype Receiver = Receiver(rcvd: nat, max: nat, step: nat, adverts: seq<nat>)

  function NewReceiver(initial: nat): Receiver { Receiver(0, initial, initial / 2, []) }

  /** The bytes are counted even when they overflow the window. */
  function OnNewRcvd(r: Receiver, amount: nat): Receiver {
    var r1 := r.(rcvd := r.rcvd + amount);
    if r1.rcvd <= r.max && r1.rcvd + r.step >= r.max
    then r1.(max := r.max + r.step, adverts := r.adverts + [r.max + r.step]) else r1
  }

  predicate Overflows(r: Receiver, amount: nat) { r.max < r.rcvd + amount }

  /** The window stays between the step and the initial limit; every limit advertised is in force. */
  predicate ReceiverOk(r: Receiver, initial: nat) {
    && r.step == initial / 2
    && r.rcvd + r.step <= r.max <= r.rcvd + initial
    && (forall i :: 0 <= i < |r.adverts| ==> r.adverts[i] <= r.max)
    && (if r.adverts == [] then r.max == initial else r.max == r.adverts[|r.adverts| - 1])
  }

  lemma ReceiverPreserves(r: Receiver, amount: nat, initial: nat)
    requires ReceiverOk(r, initial) && !Overflows(r, amount)
    ensures ReceiverOk(OnNewRcvd(r, amount), initial)
  {
  }

  // ---------------------------------------------------------------- joined by a network

  /**
   * The network may lose, duplicate and reorder MAX_DATA frames: any limit advertised so far may
   * arrive at any time. The sender starts from a limit it knows, zero or one remembered from an
   * earlier connection, and learns the initial limit with the peer's parameters, at any time and
   * however often. New bytes arrive at most once each. `failed` says that the receiver has
   * ever reported a flow control error.
   */
  datatype Link = Link(sender: Sender, receiver: Receiver, failed: bool)

  datatype Event =
    | Request(quota: nat)
    | Send(id: nat, amount: nat)
    | Drop(id: nat)
    | Fail
    | LearnInitial
    | ArriveLimit(index: nat)
    | ArriveData(amount: nat)

  predicate Possible(l: Link, e: Event) {
    match e
    case Request(q) => 0 <= Available(l.sender, q)
    case Send(id, n) => CanPost(l.sender, id, n)
    case Drop(id) => CanDrop(l.sender, id)
    case Fail => true
    case LearnInitial => true
    case ArriveLimit(i) => i < |l.receiver.adverts|
    case ArriveData(n) => l.receiver.rcvd + n <= l.sender.committed
  }

  function Next(l: Link, e: Event, initial: nat): Link {
    if !Possible(l, e) then l
    else
      match e
      case Request(q) => l.(sender := Lend(l.sender, q))
      case Send(id, n) => l.(sender := PostSent(l.sender, id, n))
      case Drop(id) => l.(sender := Refund(l.sender, id))
      case Fail => l.(sender := OnError(l.sender))
      case LearnInitial => l.(sender := IncreaseLimit(l.sender, initial))
      case ArriveLimit(i) => l.(sender := IncreaseLimit(l.sender, l.receiver.adverts[i]))
      case ArriveData(n) =>
        l.(receiver := OnNewRcvd(l.receiver, n), failed := l.failed || Overflows(l.receiver, n))
  }

  function Run(known: nat, initial: nat, events: seq<Event>): Link {
    if events == [] then Link(NewSender(known), NewReceiver(initial), false)
    else Next(Run(known, initial, events[..|events| - 1]), events[|events| - 1], initial)
  }

  predicate LinkOk(l: Link, initial: nat) {
    && SenderOk(l.sender) && ReceiverOk(l.receiver, initial)
    && l.sender.max <= l.receiver.max && initial <= l.receiver.max
    && l.receiver.rcvd <= l.sender.committed
    && !l.failed
  }

  /** Once the connection has failed, the sender takes no limit, lends nothing, reports nothing and refunds nothing. */
  lemma FailedIsFrozen(l: Link, e: Event, initial: nat)
    requires !l.sender.open
    ensures var s, s' := l.sender, Next(l, e, initial).sender;
            && !s'.open && s'.max == s.max && s'.sent == s.sent && s'.blocked == s.blocked
            && s'.blocking == s.blocking && |s'.credits| == |s.credits|
  {
  }

  lemma NextPreserves(l: Link, e: Event, initial: nat)
    requires LinkOk(l, initial)
    ensures LinkOk(Next(l, e, initial), initial)
  {
    if Possible(l, e) {
      match e
      case Request(q) => if l.sender.open { LendPreserves(l.sender, q); }
      case Send(id, n) => PostPreserves(l.sender, id, n);
      case Drop(id) => RefundPreserves(l.sender, id);
      case Fail =>
      case LearnInitial =>
      case ArriveLimit(i) =>
      case ArriveData(n) => ReceiverPreserves(l.receiver, n, initial);
    }
  }

  lemma {:induction false} RunPreserves(known: nat, initial: nat, events: seq<Event>)
    requires known <= initial
    ensures LinkOk(Run(known, initial, events), initial)
  {
    if events != [] {
      RunPreserves(known, initial, events[..|events| - 1]);
      NextPreserves(Run(known, initial, events[..|events| - 1]), events[|events| - 1], initial);
    }
  }

  /**
   * Over every run: the sender never believes in a larger limit than the receiver's, what is
   * committed and on loan stays within it, and the receiver never sees an overflow; the DATA_BLOCKED
   * limits strictly increase.
   */
  lemma HonestSenderIsSafe(known: nat, initial: nat, events: seq<Event>)
    requires known <= initial
    ensures var l := Run(known, initial, events);
            && l.sender.committed + Unused(l.sender.credits) <= l.sender.max <= l.receiver.max
            && (l.sender.open ==> l.sender.sent == l.sender.committed + Unused(l.sender.credits))
            && !l.failed
            && l.receiver.step <= l.receiver.max - l.receiver.rcvd <= initial
            && Increasing(l.sender.blocked)
  {
    RunPreserves(known, initial, events);
  }

  /** Everything sent has arrived, the last limit is known, no credit is out. */
  predicate Quiet(l: Link) {
    && l.sender.open
    && l.receiver.rcvd == l.sender.committed
    && l.sender.max == l.receiver.max
    && Unused(l.sender.credits) == 0
  }

  /** Then a request obtains at least a step. */
  lemma QuietProgress(known: nat, initial: nat, events: seq<Event>, q: nat)
    requires known <= initial && Quiet(Run(known, initial, events))
    ensures Available(Run(known, initial, events).sender, q) >= Min(q, initial / 2)
  {
    RunPreserves(known, initial, events);
  }

  lemma RunSnoc(known: nat, initial: nat, events: seq<Event>, e: Event)
    ensures Run(known, initial, events + [e]) == Next(Run(known, initial, events), e, initial)
  {
    assert (events + [e])[..|events|] == events;
  }

  lemma {:induction false} NoneLiveNoneUnused(cs: seq<Credit>)
    requires forall i :: 0 <= i < |cs| ==> !cs[i].live
    ensures Unused(cs) == 0
  {
    if cs != [] { NoneLiveNoneUnused(cs[..|cs| - 1]); }
  }

  /** One more event after `more`. */
  lemma RunMore(known: nat, initial: nat, events: seq<Event>, more: seq<Event>, e: Event)
    ensures Run(known, initial, events + (more + [e])) == Next(Run(known, initial, events + more), e, initial)
  {
    ConcatAssociative(events, more, [e]);
    RunSnoc(known, initial, events + more, e);
  }

  /** Nothing has changed but which credits are live, and what that refunds. */
  predicate OnlyRefunds(l: Link, l': Link) {
    && l'.receiver == l.receiver && l'.failed == l.failed
    && l'.sender.open == l.sender.open && l'.sender.committed == l.sender.committed && l'.sender.max == l.sender.max
    && |l'.sender.credits| == |l.sender.credits|
  }

  /** All credits with ids below `n` can be dropped. */
  lemma {:induction false} DropAll(known: nat, initial: nat, events: seq<Event>, n: nat) returns (more: seq<Event>)
    requires n <= |Run(known, initial, events).sender.credits|
    ensures OnlyRefunds(Run(known, initial, events), Run(known, initial, events + more))
    ensures forall i :: 0 <= i < n ==> !Run(known, initial, events + more).sender.credits[i].live
  {
    if n == 0 {
      more := [];
      assert events + more == events;
    } else {
      more := DropAll(known, initial, events, n - 1);
      if Run(known, initial, events + more).sender.credits[n - 1].live {
        RunMore(known, initial, events, more, Drop(n - 1));
        more := more + [Drop(n - 1)];
      }
    }
  }

  /** All bytes sent can be delivered. */
  lemma DeliverAll(l: Link, initial: nat)
    requires LinkOk(l, initial)
    ensures var e := ArriveData(l.sender.committed - l.receiver.rcvd);
            Next(l, e, initial).sender == l.sender && Next(l, e, initial).receiver.rcvd == l.sender.committed
  {
  }

  /** The limit in force: the last one advertised, or the initial one. */
  function LastLimit(r: Receiver): Event {
    if r.adverts == [] then LearnInitial else ArriveLimit(|r.adverts| - 1)
  }

  lemma LastLimitInforms(l: Link, initial: nat)
    requires LinkOk(l, initial) && l.sender.open
    ensures var l' := Next(l, LastLimit(l.receiver), initial);
            l'.receiver == l.receiver && l'.sender.max == l.receiver.max && l'.sender.open
            && l'.sender.committed == l.sender.committed && l'.sender.credits == l.sender.credits
  {
  }

  /** From every state of an open connection everything can settle without sending another byte. */
  lemma CanSettle(known: nat, initial: nat, events: seq<Event>) returns (more: seq<Event>)
    requires known <= initial && Run(known, initial, events).sender.open
    ensures Quiet(Run(known, initial, events + more))
    ensures Run(known, initial, events + more).sender.committed == Run(known, initial, events).sender.committed
  {
    more := DropAll(known, initial, events, |Run(known, initial, events).sender.credits|);
    var l1 := Run(known, initial, events + more);
    RunPreserves(known, initial, events + more);
    NoneLiveNoneUnused(l1.sender.credits);
    DeliverAll(l1, initial);
    var arrive := ArriveData(l1.sender.committed - l1.receiver.rcvd);
    RunMore(known, initial, events, more, arrive);
    more := more + [arrive];
    var l2 := Run(known, initial, events + more);
    RunPreserves(known, initial, events + more);
    LastLimitInforms(l2, initial);
    RunMore(known, initial, events, more, LastLimit(l2.receiver));
    more := more + [LastLimit(l2.receiver)];
  }

  /** With a window of zero or one byte the limit never moves, so at most that one byte is ever sent. */
  lemma {:induction false} SmallWindowIsStuck(known: nat, initial: nat, events: seq<Event>)
    requires known <= initial < 2
    ensures var l := Run(known, initial, events); l.receiver.max == initial && l.sender.committed <= initial
  {
    RunPreserves(known, initial, events);
    if events != [] {
      SmallWindowIsStuck(known, initial, events[..|events| - 1]);
      RunPreserves(known, initial, events[..|events| - 1]);
    }
  }

  /** A sender that has sent all it may, under one credit. */
  function Spent(n: nat): Sender { Sender(n, n, true, true, [n], [Credit(0, true)], n) }

  /** A fresh sender can send all it may at once. */
  lemma SpendRun(known: nat, initial: nat, events: seq<Event>, n: nat)
    requires Run(known, initial, events) == Link(NewSender(n), NewReceiver(initial), false)
    ensures Run(known, initial, events + [Request(n)] + [Send(0, n)]) == Link(Spent(n), NewReceiver(initial), false)
  {
    RunSnoc(known, initial, events, Request(n));
    var l := Run(known, initial, events + [Request(n)]);
    assert l.sender == Sender(n, n, true, true, [n], [Credit(n, true)], 0);
    RunSnoc(known, initial, events + [Request(n)], Send(0, n));
  }

  /** Learn the limit, spend the one byte, drop the empty credit, deliver the byte. */
  lemma OneByteRun(known: nat)
    requires known <= 1
    ensures exists events: seq<Event> ::
              Quiet(Run(known, 1, events)) && Available(Run(known, 1, events).sender, 1) == 0
  {
    RunSnoc(known, 1, [], LearnInitial);
    SpendRun(known, 1, [] + [LearnInitial], 1);
    var spent := [] + [LearnInitial] + [Request(1)] + [Send(0, 1)];
    RunSnoc(known, 1, spent, Drop(0));
    RunSnoc(known, 1, spent + [Drop(0)], ArriveData(1));
    var l := Run(known, 1, spent + [Drop(0)] + [ArriveData(1)]);
    assert l.sender == Spent(1).(credits := [Credit(0, false)]);
    assert l.receiver == Receiver(1, 1, 0, [1]);
    assert [Credit(0, false)][..0] == [];
  }

  /** Once everything has settled, every request obtains something. */
  ghost predicate KeepsMoving(known: nat, initial: nat) {
    forall events: seq<Event> ::
      Quiet(Run(known, initial, events)) ==> Available(Run(known, initial, events).sender, 1) > 0
  }

  /** Flow never stops for good exactly when the initial limit is at least two bytes. */
  lemma KeepsMovingIff(known: nat, initial: nat)
    requires known <= initial
    ensures KeepsMoving(known, initial) <==> initial >= 2
  {
    if initial >= 2 {
      forall events: seq<Event> | Quiet(Run(known, initial, events))
        ensures Available(Run(known, initial, events).sender, 1) > 0
      {
        QuietProgress(known, initial, events, 1);
      }
    } else if initial == 0 {
      assert Quiet(Run(known, 0, [])) && Available(Run(known, 0, []).sender, 1) == 0;
    } else {
      OneByteRun(known);
    }
  }

  /** No run ever makes the receiver report a flow control error. */
  ghost predicate NeverOverflows(known: nat, initial: nat) {
    forall events: seq<Event> :: !Run(known, initial, events).failed
  }

  /** That is so exactly when the limit the sender starts from is not above the receiver's. */
  lemma NeverOverflowsIff(known: nat, initial: nat)
    ensures NeverOverflows(known, initial) <==> known <= initial
  {
    if known <= initial {
      forall events: seq<Event> ensures !Run(known, initial, events).failed { RunPreserves(known, initial, events); }
    } else {
      OverflowRun(known, initial);
    }
  }

  /** Lend, send and deliver the whole remembered limit. */
  lemma OverflowRun(known: nat, initial: nat)
    requires initial < known
    ensures exists events: seq<Event> :: Run(known, initial, events).failed
  {
    SpendRun(known, initial, [], known);
    var spent := [] + [Request(known)] + [Send(0, known)];
    RunSnoc(known, initial, spent, ArriveData(known));
    assert Run(known, initial, spent + [ArriveData(known)]).failed;
  }
}
