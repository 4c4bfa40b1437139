/**
 * Connection IDs this endpoint issues (`qbase/src/cid/local_cid.rs`), on values.
 * `frames` is every NEW_CONNECTION_ID frame handed to the transport, in order.
 */
module LocalCidSpec {
  import opened Prelude
  import opened IndexDeques

  datatype Identity = Identity(cid: ConnectionId, token: ResetToken)

  datatype Local = Local(deque: IndexDeque<Option<Identity>>, limit: Option<nat>, frames: seq<NewCidFrame>)

  datatype LocalError = TransportParameter(limit: nat) | RetireUnissued(sequence: nat)

  /** Sequence `s` was issued and is not retired. */
  predicate Unretired(l: Local, s: nat) { l.deque.Contains(s) && l.deque.At(s).Some? }

  function CidOf(l: Local, s: nat): ConnectionId
    requires Unretired(l, s)
  {
    l.deque.At(s).value.cid
  }

  function New(scid: ConnectionId, minted: Identity): Local {
    Local(IndexDeque(0, [Some(Identity(scid, [])), Some(minted)]), None, [NewCidFrame(1, 0, minted.cid, minted.token)])
  }

  /** Sequence numbers must stay variable-length integers; the code unwraps the conversion. */
  function Issue(l: Local, minted: Identity): Local
    requires l.deque.Largest() <= VARINT_MAX
  {
    l.(deque := l.deque.PushBack(Some(minted)),
       frames := l.frames + [NewCidFrame(l.deque.Largest(), l.deque.offset, minted.cid, minted.token)])
  }

  function IssueAll(l: Local, drawn: seq<Identity>): Local
    requires l.deque.Largest() + |drawn| <= VARINT_MAX + 1
    decreases |drawn|
  {
    if drawn == [] then l else IssueAll(Issue(l, drawn[0]), drawn[1..])
  }

  /** How many CIDs setting the limit issues: enough for `limit` sequence numbers in all. */
  function Shortfall(l: Local, limit: nat): nat {
    if l.deque.Largest() < limit then limit - l.deque.Largest() else 0
  }

  function SetLimit(l: Local, limit: nat, drawn: seq<Identity>): Local
    requires 2 <= limit ==> |drawn| == Shortfall(l, limit) && Max(l.deque.Largest(), limit) <= VARINT_MAX + 1
  {
    if limit < 2 then l else IssueAll(l, drawn).(limit := Some(limit))
  }

  function SetLimitResult(limit: nat): Result<(), LocalError> {
    if limit < 2 then Failure(TransportParameter(limit)) else Success(())
  }

  /** Number of leading retired slots. */
  function LeadingNones<T>(items: seq<Option<T>>): (n: nat)
    ensures n <= |items|
    ensures forall i :: 0 <= i < n ==> items[i].None?
    ensures n < |items| ==> items[n].Some?
  {
    if items == [] || items[0].Some? then 0 else 1 + LeadingNones(items[1..])
  }

  /** The deque after sequence `s` is taken and the retired front is dropped. */
  function Taken(d: IndexDeque<Option<Identity>>, s: nat): IndexDeque<Option<Identity>>
    requires d.Contains(s)
  {
    var items := d.items[s - d.offset := None];
    IndexDeque(d.offset, items).Advance(LeadingNones(items))
  }

  function RecvRetire(l: Local, s: nat, minted: Identity): Local
    requires Unretired(l, s) ==> l.deque.Largest() <= VARINT_MAX
  {
    if Unretired(l, s) then Issue(l.(deque := Taken(l.deque, s)), minted) else l
  }

  function RecvRetireResult(l: Local, s: nat): Result<(), LocalError> {
    if l.deque.Largest() <= s then Failure(RetireUnissued(s)) else Success(())
  }

  // ---------------------------------------------------------------- invariant

  function CountSome<T>(items: seq<Option<T>>): nat {
    if items == [] then 0
    else CountSome(items[..|items| - 1]) + if items[|items| - 1].Some? then 1 else 0
  }

  /** How many issued CIDs the peer may still use. */
  function UnretiredCount(l: Local): nat { CountSome(l.deque.items) }

  /** Frames carry consecutive sequences from 1 and retire-prior-to values that never decrease. */
  predicate Consecutive(l: Local) {
    && |l.frames| + 1 == l.deque.Largest()
    && (forall i :: 0 <= i < |l.frames| ==>
          && l.frames[i].sequence == i + 1
          && l.frames[i].retirePriorTo <= Min(i + 1, l.deque.offset))
    && (forall i, j :: 0 <= i <= j < |l.frames| ==> l.frames[i].retirePriorTo <= l.frames[j].retirePriorTo)
  }

  predicate Inv(l: Local) {
    && Consecutive(l)
    && l.deque.items != [] && l.deque.items[0].Some?
    && 2 <= UnretiredCount(l) <= (if l.limit.Some? then l.limit.value else 2)
  }

  lemma NewInv(scid: ConnectionId, minted: Identity)
    ensures Inv(New(scid, minted)) && UnretiredCount(New(scid, minted)) == 2
  {
    var items := New(scid, minted).deque.items;
    assert CountSome(items[..1][..0]) == 0;
    assert CountSome(items[..1]) == 1;
  }

  lemma {:induction false} CountSomeUpdate<T>(items: seq<Option<T>>, i: nat)
    requires i < |items| && items[i].Some?
    ensures CountSome(items) == CountSome(items[i := None]) + 1
  {
    var last := |items| - 1;
    if i < last {
      CountSomeUpdate(items[..last], i);
      assert items[i := None][..last] == items[..last][i := None];
    } else {
      assert items[i := None][..last] == items[..last];
    }
  }

  lemma {:induction false} CountSomeDrop<T>(items: seq<Option<T>>, n: nat)
    requires n <= |items| && forall i :: 0 <= i < n ==> items[i].None?
    ensures CountSome(items[n..]) == CountSome(items)
  {
    var last := |items| - 1;
    if n < |items| {
      CountSomeDrop(items[..last], n);
      assert items[n..][..|items| - n - 1] == items[..last][n..];
    } else if items != [] {
      CountSomeDrop(items[..last], last);
      assert items[n..] == [] && items[..last][last..] == [];
    }
  }

  lemma {:induction false} CountSomeBound<T>(items: seq<Option<T>>)
    ensures CountSome(items) <= |items|
  {
    if items != [] { CountSomeBound(items[..|items| - 1]); }
  }

  /** A retirement leaves the number of usable CIDs as it was, and a repeated one changes nothing. */
  lemma RetireKeepsCount(l: Local, s: nat, minted: Identity)
    requires Inv(l) && (Unretired(l, s) ==> l.deque.Largest() <= VARINT_MAX)
    ensures UnretiredCount(RecvRetire(l, s, minted)) == UnretiredCount(l)
    ensures !Unretired(RecvRetire(l, s, minted), s)
    ensures forall again: Identity :: RecvRetire(l, s, minted).deque.Largest() <= VARINT_MAX ==>
              RecvRetire(RecvRetire(l, s, minted), s, again) == RecvRetire(l, s, minted)
  {
    if Unretired(l, s) {
      var items := l.deque.items[s - l.deque.offset := None];
      var rest := Taken(l.deque, s).items;
      CountSomeUpdate(l.deque.items, s - l.deque.offset);
      CountSomeDrop(items, LeadingNones(items));
      assert (rest + [Some(minted)])[..|rest|] == rest;
    }
  }

  lemma RetirePreserves(l: Local, s: nat, minted: Identity)
    requires Inv(l) && (Unretired(l, s) ==> l.deque.Largest() <= VARINT_MAX)
    ensures Inv(RecvRetire(l, s, minted))
  {
    RetireKeepsCount(l, s, minted);
  }

  lemma {:induction false} IssueAllShape(l: Local, drawn: seq<Identity>)
    requires Consecutive(l) && l.deque.Largest() + |drawn| <= VARINT_MAX + 1
    requires l.deque.items != [] && l.deque.items[0].Some?
    ensures var l' := IssueAll(l, drawn);
            && Consecutive(l') && l'.deque.items != [] && l'.deque.items[0].Some?
            && l'.deque.offset == l.deque.offset && l'.deque.Largest() == l.deque.Largest() + |drawn|
            && UnretiredCount(l') == UnretiredCount(l) + |drawn|
    decreases |drawn|
  {
    if drawn != [] {
      var l' := Issue(l, drawn[0]);
      assert l'.deque.items[..|l.deque.items|] == l.deque.items;
      IssueAllShape(l', drawn[1..]);
    }
  }

  /** The limit is met exactly when no CID has been retired before it is known. */
  lemma SetLimitPreserves(l: Local, limit: nat, drawn: seq<Identity>)
    requires Inv(l) && l.limit.None? && 2 <= limit
    requires |drawn| == Shortfall(l, limit) && Max(l.deque.Largest(), limit) <= VARINT_MAX + 1
    ensures Inv(SetLimit(l, limit, drawn))
    ensures UnretiredCount(SetLimit(l, limit, drawn)) == 2 + Shortfall(l, limit)
    ensures UnretiredCount(SetLimit(l, limit, drawn)) == limit <==> limit == 2 || l.deque.Largest() == 2
  {
    IssueAllShape(l, drawn);
    CountSomeBound(l.deque.items);
  }

  /** Each frame's retire-prior-to is the lowest sequence still usable once the frame is issued. */
  lemma RetirePriorToIsLowest(l: Local, s: nat, minted: Identity)
    requires Inv(l) && Unretired(l, s) && l.deque.Largest() <= VARINT_MAX
    ensures var l' := RecvRetire(l, s, minted);
            var f := l'.frames[|l'.frames| - 1];
            && |l'.frames| == |l.frames| + 1 && l.frames < l'.frames
            && f.sequence == l.deque.Largest() && Unretired(l', f.sequence) && CidOf(l', f.sequence) == f.cid
            && Unretired(l', f.retirePriorTo)
            && forall k: nat :: k < f.retirePriorTo ==> !Unretired(l', k)
  {
  }

  // ---------------------------------------------------------------- runs

  datatype Step =
    | SetLimitStep(limit: nat, drawn: seq<Identity>)
    | RetireStep(sequence: nat, minted: Identity)

  predicate Enabled(l: Local, s: Step) {
    match s
    case SetLimitStep(limit, drawn) =>
      && l.limit.None?
      && (2 <= limit ==> |drawn| == Shortfall(l, limit) && Max(l.deque.Largest(), limit) <= VARINT_MAX + 1)
    case RetireStep(_, _) => l.deque.Largest() <= VARINT_MAX
  }

  /** A call whose precondition fails is not made. */
  function Next(l: Local, s: Step): Local {
    if !Enabled(l, s) then l
    else match s
      case SetLimitStep(limit, drawn) => SetLimit(l, limit, drawn)
      case RetireStep(sequence, minted) => RecvRetire(l, sequence, minted)
  }

  function Run(l: Local, steps: seq<Step>): Local {
    if steps == [] then l else Next(Run(l, steps[..|steps| - 1]), steps[|steps| - 1])
  }

  lemma NextPreserves(l: Local, s: Step)
    requires Inv(l)
    ensures Inv(Next(l, s))
  {
    if Enabled(l, s) {
      match s
      case SetLimitStep(limit, drawn) =>
        if 2 <= limit { SetLimitPreserves(l, limit, drawn); }
      case RetireStep(sequence, minted) => RetirePreserves(l, sequence, minted);
    }
  }

  /** Consecutive sequences, monotone retire-prior-to and the bound on usable CIDs, after every run. */
  lemma {:induction false} ReachableInv(scid: ConnectionId, minted: Identity, steps: seq<Step>)
    ensures Inv(Run(New(scid, minted), steps))
  {
    if steps == [] {
      NewInv(scid, minted);
    } else {
      ReachableInv(scid, minted, steps[..|steps| - 1]);
      NextPreserves(Run(New(scid, minted), steps[..|steps| - 1]), steps[|steps| - 1]);
    }
  }

  /** The peer was told of sequence `s`: the first is known from the handshake, the others from frames. */
  ghost predicate Issued(l: Local, s: nat) { s == 0 || exists i :: 0 <= i < |l.frames| && l.frames[i].sequence == s }

  lemma IssuedIff(l: Local, s: nat)
    requires Inv(l)
    ensures Issued(l, s) <==> s < l.deque.Largest()
  {
    if 0 < s < l.deque.Largest() { assert l.frames[s - 1].sequence == s; }
  }

  /** After every run the issuer refuses exactly the retirements of sequences it never issued, and then does nothing. */
  lemma RetireRefusedIff(scid: ConnectionId, minted: Identity, steps: seq<Step>, s: nat, next: Identity)
    ensures var l := Run(New(scid, minted), steps);
            && RecvRetireResult(l, s) == (if Issued(l, s) then Success(()) else Failure(RetireUnissued(s)))
            && (!Issued(l, s) ==> Next(l, RetireStep(s, next)) == l)
  {
    ReachableInv(scid, minted, steps);
    IssuedIff(Run(New(scid, minted), steps), s);
  }

  /** A limit below two is refused and changes nothing; any other is recorded and filled up to. */
  lemma LimitRefusedIff(l: Local, limit: nat, drawn: seq<Identity>)
    requires Inv(l) && Enabled(l, SetLimitStep(limit, drawn))
    ensures var l' := Next(l, SetLimitStep(limit, drawn));
            if limit < 2 then SetLimitResult(limit) == Failure(TransportParameter(limit)) && l' == l
            else
              && SetLimitResult(limit) == Success(()) && l'.limit == Some(limit)
              && l'.deque.offset == l.deque.offset && l'.deque.Largest() == Max(l.deque.Largest(), limit)
  {
    if 2 <= limit { IssueAllShape(l, drawn); }
  }

  // ---------------------------------------------------------------- which CIDs are usable

  /** What the peer was told of sequence `s`. */
  function Told(scid: ConnectionId, l: Local, s: nat): Identity
    requires 0 < s ==> s - 1 < |l.frames|
  {
    if s == 0 then Identity(scid, []) else Identity(l.frames[s - 1].cid, l.frames[s - 1].token)
  }

  /** The run delivered a retirement of sequence `s` after it had been issued. */
  predicate RetiredIn(l: Local, steps: seq<Step>, s: nat) {
    steps != [] &&
    var before, last := Run(l, steps[..|steps| - 1]), steps[|steps| - 1];
    || RetiredIn(l, steps[..|steps| - 1], s)
    || (last.RetireStep? && last.sequence == s && Enabled(before, last) && s < before.deque.Largest())
  }

  /** Retiring `s` takes away that sequence alone and, if it was usable, adds the next one. */
  lemma RetireTakesOne(l: Local, s: nat, minted: Identity, k: nat)
    requires Inv(l) && l.deque.Largest() <= VARINT_MAX
    ensures var l' := RecvRetire(l, s, minted);
            && (Unretired(l', k) <==> (k != s && Unretired(l, k)) || (Unretired(l, s) && k == l.deque.Largest()))
            && (k != s && Unretired(l, k) ==> l'.deque.At(k) == l.deque.At(k))
            && (Unretired(l, s) ==> l'.deque.Get(l.deque.Largest()) == Some(Some(minted)))
            && l'.deque.Largest() == l.deque.Largest() + if Unretired(l, s) then 1 else 0
  {
    if Unretired(l, s) && l.deque.Contains(k) && k != s {
      assert l.deque.items[s - l.deque.offset := None][k - l.deque.offset] == l.deque.At(k);
    }
  }

  lemma {:induction false} IssueAllAdds(l: Local, drawn: seq<Identity>, k: nat)
    requires l.deque.Largest() + |drawn| <= VARINT_MAX + 1 && |l.frames| + 1 == l.deque.Largest()
    ensures var l' := IssueAll(l, drawn);
            && |l'.frames| + 1 == l'.deque.Largest() == l.deque.Largest() + |drawn| && l.frames <= l'.frames
            && (k < l.deque.Largest() ==> l'.deque.Get(k) == l.deque.Get(k))
            && (l.deque.Largest() <= k < l'.deque.Largest() ==>
                  l'.deque.Get(k) == Some(Some(Identity(l'.frames[k - 1].cid, l'.frames[k - 1].token))))
    decreases |drawn|
  {
    if drawn != [] { IssueAllAdds(Issue(l, drawn[0]), drawn[1..], k); }
  }

  /** Sequence `k` is usable and carries what the peer was told of it. */
  predicate AsTold(scid: ConnectionId, l: Local, k: nat) {
    Unretired(l, k) && (0 < k ==> k - 1 < |l.frames|) && l.deque.At(k).value == Told(scid, l, k)
  }

  lemma RetireAsTold(scid: ConnectionId, l: Local, s: nat, minted: Identity, k: nat)
    requires Inv(l) && l.deque.Largest() <= VARINT_MAX && (Unretired(l, k) ==> AsTold(scid, l, k))
    ensures Unretired(RecvRetire(l, s, minted), k) ==> AsTold(scid, RecvRetire(l, s, minted), k)
  {
    RetireTakesOne(l, s, minted, k);
    assert Unretired(l, s) ==> l.frames < RecvRetire(l, s, minted).frames;
    var l' := RecvRetire(l, s, minted);
    assert 0 < k <= |l.frames| ==> l'.frames[k - 1] == l.frames[k - 1];
  }

  lemma LimitAsTold(scid: ConnectionId, l: Local, limit: nat, drawn: seq<Identity>, k: nat)
    requires Inv(l) && Enabled(l, SetLimitStep(limit, drawn)) && (Unretired(l, k) ==> AsTold(scid, l, k))
    ensures var l' := SetLimit(l, limit, drawn);
            && (Unretired(l', k) ==> AsTold(scid, l', k))
            && (Unretired(l', k) <==> Unretired(l, k) || l.deque.Largest() <= k < l'.deque.Largest())
  {
    if 2 <= limit {
      IssueAllAdds(l, drawn, k);
      var l' := SetLimit(l, limit, drawn);
      assert 0 < k <= |l.frames| ==> l'.frames[k - 1] == l.frames[k - 1];
      assert l'.deque.Contains(k) ==> l'.deque.Get(k) == Some(l'.deque.At(k));
      assert l.deque.Contains(k) ==> l.deque.Get(k) == Some(l.deque.At(k));
    }
  }

  lemma {:induction false} RunPreserves(l: Local, steps: seq<Step>)
    requires Inv(l)
    ensures Inv(Run(l, steps))
  {
    if steps != [] {
      RunPreserves(l, steps[..|steps| - 1]);
      NextPreserves(Run(l, steps[..|steps| - 1]), steps[|steps| - 1]);
    }
  }

  lemma NextGrows(l: Local, s: Step)
    requires Inv(l)
    ensures l.deque.Largest() <= Next(l, s).deque.Largest()
  {
    if Enabled(l, s) {
      match s
      case SetLimitStep(limit, drawn) => LimitRefusedIff(l, limit, drawn);
      case RetireStep(sequence, minted) => RetireTakesOne(l, sequence, minted, 0);
    }
  }

  lemma {:induction false} RetiredWasIssued(l: Local, steps: seq<Step>, s: nat)
    requires Inv(l) && RetiredIn(l, steps, s)
    ensures s < Run(l, steps).deque.Largest() && Inv(Run(l, steps))
  {
    var before, last := steps[..|steps| - 1], steps[|steps| - 1];
    RunPreserves(l, before);
    if RetiredIn(l, before, s) { RetiredWasIssued(l, before, s); }
    NextPreserves(Run(l, before), last);
    NextGrows(Run(l, before), last);
  }

  /** One call: what it retires leaves, what it issues comes, and the rest stays as told. */
  lemma UsableStep(scid: ConnectionId, l: Local, s: Step, k: nat)
    requires Inv(l) && (Unretired(l, k) ==> AsTold(scid, l, k))
    ensures var l' := Next(l, s);
            && (Unretired(l', k) ==> AsTold(scid, l', k))
            && (Unretired(l', k) <==>
                || (Unretired(l, k) && !(s.RetireStep? && Enabled(l, s) && s.sequence == k))
                || l.deque.Largest() <= k < l'.deque.Largest())
  {
    if Enabled(l, s) {
      match s
      case SetLimitStep(limit, drawn) => LimitAsTold(scid, l, limit, drawn, k);
      case RetireStep(sequence, minted) =>
        RetireTakesOne(l, sequence, minted, k);
        RetireAsTold(scid, l, sequence, minted, k);
    }
  }

  /** After every run the usable CIDs are exactly those issued and not retired since, each as the peer was told. */
  lemma {:induction false} UsableIff(scid: ConnectionId, minted: Identity, steps: seq<Step>, k: nat)
    ensures var l := Run(New(scid, minted), steps);
            && (Unretired(l, k) <==> Issued(l, k) && !RetiredIn(New(scid, minted), steps, k))
            && (Unretired(l, k) ==> AsTold(scid, l, k))
  {
    var l0 := New(scid, minted);
    NewInv(scid, minted);
    ReachableInv(scid, minted, steps);
    IssuedIff(Run(l0, steps), k);
    if steps != [] {
      var before, last := steps[..|steps| - 1], steps[|steps| - 1];
      UsableIff(scid, minted, before, k);
      ReachableInv(scid, minted, before);
      IssuedIff(Run(l0, before), k);
      if RetiredIn(l0, before, k) { RetiredWasIssued(l0, before, k); }
      UsableStep(scid, Run(l0, before), last, k);
    }
  }
}
