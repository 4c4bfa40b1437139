/**
 * One endpoint's issued CIDs and the other's store of them. The channel keeps every frame ever
 * sent and may deliver any of them, any number of times, in any order, or never.
 */
module CidPair {
  import opened Prelude
  import opened RemoteCidSpec
  import opened RemoteCidProofs
  import opened RemoteCidLaws
  import L = LocalCidSpec

  datatype Pair = Pair(local: L.Local, remote: Remote)

  /** The store starts with any initial CID: a client replaces its first guess later. */
  function Init(scid: ConnectionId, minted: L.Identity, dcid: ConnectionId, limit: nat): Pair {
    Pair(L.New(scid, minted), RemoteCidSpec.New(dcid, limit))
  }

  datatype PairStep =
    | LearnLimit(drawn: seq<L.Identity>)
    | DeliverNew(index: nat)
    | DeliverRetire(index: nat, minted: L.Identity)
    | Path(step: Step)

  /** A path never delivers frames itself. */
  ghost function PairNext(p: Pair, s: PairStep): Pair {
    match s
    case LearnLimit(drawn) => p.(local := L.Next(p.local, L.SetLimitStep(p.remote.limit, drawn)))
    case DeliverNew(i) =>
      if i < |p.local.frames| then p.(remote := Next(p.remote, NewCidStep(p.local.frames[i]))) else p
    case DeliverRetire(i, minted) =>
      if i < |p.remote.sent| then p.(local := L.Next(p.local, L.RetireStep(p.remote.sent[i], minted))) else p
    case Path(step) => if step.NewCidStep? then p else p.(remote := Next(p.remote, step))
  }

  ghost function PairRun(p: Pair, steps: seq<PairStep>): Pair {
    if steps == [] then p else PairNext(PairRun(p, steps[..|steps| - 1]), steps[|steps| - 1])
  }

  // ---------------------------------------------------------------- invariant

  /** No cell holds two sequences, and a waiting cell holds none. */
  ghost predicate Settled(r: Remote)
    requires IdsOk(r)
  {
    && (forall id :: 0 <= id < |r.cells| ==> |r.cells[id].held| <= 1)
    && (forall i :: 0 <= i < |r.pending| ==> r.cells[r.pending[i]].held == [])
  }

  /** What the store knows is what was issued; the first CID is exempt, being learnt elsewhere. */
  ghost predicate Informed(p: Pair)
    requires L.Consecutive(p.local)
  {
    && p.remote.cids.Largest() <= p.local.deque.Largest()
    && (forall k: nat :: 0 < k && p.remote.cids.Contains(k) && p.remote.cids.At(k).Some? ==>
          p.remote.cids.At(k).value.cid == p.local.frames[k - 1].cid)
  }

  /** A sequence the issuer has retired was retired by the store. */
  ghost predicate Acknowledged(p: Pair) {
    forall s: nat :: s < p.local.deque.Largest() && !L.Unretired(p.local, s) ==> s in p.remote.sent
  }

  ghost predicate PairInv(p: Pair) {
    && L.Inv(p.local) && Inv(p.remote) && CidAgreement(p.remote) && Settled(p.remote)
    && p.local.deque.Largest() <= VARINT_MAX + 1
    && (p.local.limit.Some? ==> p.local.limit.value == p.remote.limit)
    && Informed(p) && Acknowledged(p)
  }

  /** Every assigned cell but `except` keeps its one sequence. */
  ghost predicate Keeps(r: Remote, r': Remote, except: Step) {
    && |r.cells| <= |r'.cells|
    && forall id :: 0 <= id < |r.cells| && r.cells[id].held != [] && except != RetireStep(id) ==>
         |r'.cells[id].held| == 1 && r'.cells[id].held[0].sequence == r.cells[id].held[0].sequence
  }

  /** Every sequence below an issued retire-prior-to has been retired already, and no cell holds it. */
  lemma RetirePriorToIsStale(p: Pair, i: nat, s: nat)
    requires PairInv(p) && i < |p.local.frames| && s < p.local.frames[i].retirePriorTo
    ensures s in p.remote.sent && s < p.remote.cursor
    ensures forall id :: 0 <= id < |p.remote.cells| ==> !Holds(p.remote.cells[id], s)
  {
    assert p.local.frames[i].retirePriorTo <= p.local.deque.offset;
    assert !L.Unretired(p.local, s);
    LedgerReading(p.remote, s);
  }

  /** Every RETIRE_CONNECTION_ID names an issued sequence, so the issuer never rejects one. */
  lemma RetireIsAlwaysAccepted(p: Pair, i: nat)
    requires PairInv(p) && i < |p.remote.sent|
    ensures p.remote.sent[i] < p.local.deque.Largest()
    ensures L.RecvRetireResult(p.local, p.remote.sent[i]).Success?
  {
    LedgerReading(p.remote, p.remote.sent[i]);
  }

  /** Delivering a frame takes no CID from a live cell and skips no sequence. */
  lemma NothingIsForced(p: Pair, i: nat)
    requires PairInv(p) && i < |p.local.frames|
    ensures var f := p.local.frames[i];
            && f.retirePriorTo <= p.remote.cursor
            && forall k: nat :: p.remote.ready.Contains(k) && k < f.retirePriorTo ==>
                 p.remote.cells[p.remote.ready.At(k)].retired
  {
    var f := p.local.frames[i];
    if p.remote.cursor < f.retirePriorTo { RetirePriorToIsStale(p, i, p.remote.cursor); }
    forall k: nat | p.remote.ready.Contains(k) && k < f.retirePriorTo
      ensures p.remote.cells[p.remote.ready.At(k)].retired
    {
      var c := p.remote.cells[p.remote.ready.At(k)];
      assert !c.retired ==> Holds(c, k) by {
        if !c.retired { assert Sequences(c.held)[0] == k; }
      }
      RetirePriorToIsStale(p, i, k);
    }
  }

  // ---------------------------------------------------------------- preservation

  lemma {:induction false} ArrangeIsQuiet(r: Remote)
    requires Core(r) && Settled(r)
    ensures var a := Arrange(r); Core(a) && Settled(a) && a.sent == r.sent && |a.cells| == |r.cells|
    ensures forall id :: 0 <= id < |r.cells| && r.cells[id].held != [] ==> Arrange(r).cells[id] == r.cells[id]
    ensures Arrange(r).cids == r.cids
    decreases |r.pending|
  {
    if CanArrange(r) {
      ArrangeOncePreserves(r);
      var r' := ArrangeOnce(r);
      var id := r.pending[0];
      forall i | 0 <= i < |r'.pending| ensures r'.cells[r'.pending[i]].held == [] {
        assert r'.pending[i] == r.pending[i + 1];
        assert (r.pending + r.ready.items)[i + 1] != (r.pending + r.ready.items)[0];
      }
      assert AssignSends(r.cells[id]) == [] by { assert Sequences([]) == []; }
      ArrangeIsQuiet(r');
    }
  }

  lemma {:induction false} LiveOnlyNone(ids: seq<nat>, cells: seq<Cell>)
    requires forall i :: 0 <= i < |ids| ==> ids[i] < |cells| && cells[ids[i]].retired
    ensures LiveOnly(ids, cells) == []
  {
    if ids != [] { LiveOnlyNone(ids[..|ids| - 1], cells); }
  }

  /** The retirement part of a delivery only forgets retired cells. */
  lemma RetirePriorToIsQuiet(r: Remote, tomb: nat)
    requires Core(r) && Settled(r) && tomb <= r.cids.Largest() && tomb <= r.cursor
    requires forall k: nat :: r.ready.Contains(k) && k < tomb ==> r.cells[r.ready.At(k)].retired
    ensures var q := RetirePriorTo(r, tomb); q.sent == r.sent && q.cells == r.cells && q.pending == r.pending
  {
    if r.ready.offset < tomb {
      var popped := r.ready.items[..tomb - r.ready.offset];
      forall i | 0 <= i < |popped| ensures popped[i] < |r.cells| && r.cells[popped[i]].retired {
        assert popped[i] == r.ready.At(r.ready.offset + i);
      }
      LiveOnlyNone(popped, r.cells);
    }
  }

  /** A frame that forces nothing sends nothing and leaves every assigned cell as it was. */
  lemma RecvIsQuiet(r: Remote, f: NewCidFrame)
    requires Inv(r) && Settled(r) && FrameOk(f) && f.retirePriorTo <= r.cursor
    requires forall k: nat :: r.ready.Contains(k) && k < f.retirePriorTo ==> r.cells[r.ready.At(k)].retired
    ensures IdsOk(RecvNewCid(r, f)) && Settled(RecvNewCid(r, f)) && RecvNewCid(r, f).sent == r.sent
    ensures |RecvNewCid(r, f).cells| == |r.cells|
    ensures forall id :: 0 <= id < |r.cells| && r.cells[id].held != [] ==> RecvNewCid(r, f).cells[id] == r.cells[id]
  {
    if Accepts(r, f) {
      var stowed := Stow(r, f);
      StowPreserves(r, f);
      RetirePriorToPreserves(stowed, f.retirePriorTo);
      RetirePriorToIsQuiet(stowed, f.retirePriorTo);
      ArrangeIsQuiet(RetirePriorTo(stowed, f.retirePriorTo));
    }
  }

  /** An issued frame never contradicts what the store already knows. */
  lemma IssuedFramesAreFaithful(p: Pair, i: nat)
    requires PairInv(p) && i < |p.local.frames|
    ensures FrameOk(p.local.frames[i]) && p.local.frames[i].sequence == i + 1
    ensures !Overwrites(p.remote, p.local.frames[i])
  {
  }

  /** So an honest pair's frame moves no assigned cell and sends nothing. */
  lemma DeliverNewIsQuiet(p: Pair, i: nat)
    requires PairInv(p) && i < |p.local.frames|
    ensures var r' := PairNext(p, DeliverNew(i)).remote;
            && Inv(r') && CidAgreement(r') && Settled(r') && r'.sent == p.remote.sent && r'.limit == p.remote.limit
            && Keeps(p.remote, r', ApplyStep)
  {
    var f := p.local.frames[i];
    IssuedFramesAreFaithful(p, i);
    NextPreserves(p.remote, NewCidStep(f));
    NothingIsForced(p, i);
    RecvIsQuiet(p.remote, f);
  }

  lemma DeliveredAsIssued(p: Pair, i: nat, k: nat)
    requires PairInv(p) && i < |p.local.frames|
    ensures var r' := PairNext(p, DeliverNew(i)).remote;
            && r'.cids.Largest() <= p.local.deque.Largest()
            && (0 < k && r'.cids.Contains(k) && r'.cids.At(k).Some? ==>
                  k - 1 < |p.local.frames| && r'.cids.At(k).value.cid == p.local.frames[k - 1].cid)
  {
    var f := p.local.frames[i];
    IssuedFramesAreFaithful(p, i);
    RecvNewCidStore(p.remote, f, k);
    assert PairNext(p, DeliverNew(i)).remote == RecvNewCid(p.remote, f);
  }

  lemma DeliverNewInforms(p: Pair, i: nat)
    requires PairInv(p) && i < |p.local.frames|
    ensures Informed(PairNext(p, DeliverNew(i)))
  {
    var r' := PairNext(p, DeliverNew(i)).remote;
    DeliveredAsIssued(p, i, 0);
    forall k: nat | 0 < k && r'.cids.Contains(k) && r'.cids.At(k).Some?
      ensures r'.cids.At(k).value.cid == p.local.frames[k - 1].cid
    {
      DeliveredAsIssued(p, i, k);
    }
  }

  lemma DeliverNewPreserves(p: Pair, i: nat)
    requires PairInv(p) && i < |p.local.frames|
    ensures PairInv(PairNext(p, DeliverNew(i)))
  {
    DeliverNewIsQuiet(p, i);
    DeliverNewInforms(p, i);
  }

  /** Retiring one sequence leaves every other usable, and the issuer's frames only grow. */
  lemma RetireKeepsOthers(l: L.Local, s: nat, minted: L.Identity, k: nat)
    requires L.Inv(l) && l.deque.Largest() <= VARINT_MAX
    ensures k != s && L.Unretired(l, k) ==> L.Unretired(L.RecvRetire(l, s, minted), k)
    ensures L.Unretired(l, s) ==> L.Unretired(L.RecvRetire(l, s, minted), l.deque.Largest())
    ensures l.frames <= L.RecvRetire(l, s, minted).frames
  {
    if L.Unretired(l, s) && k != s && L.Unretired(l, k) {
      var items := l.deque.items[s - l.deque.offset := None];
      assert items[k - l.deque.offset].Some?;
    }
  }

  lemma RetireStaysAcknowledged(p: Pair, s: nat, minted: L.Identity)
    requires PairInv(p) && s in p.remote.sent && p.local.deque.Largest() <= VARINT_MAX
    ensures Acknowledged(p.(local := L.RecvRetire(p.local, s, minted)))
  {
    var l' := L.RecvRetire(p.local, s, minted);
    forall k: nat | k < l'.deque.Largest() && !L.Unretired(l', k) ensures k in p.remote.sent {
      RetireKeepsOthers(p.local, s, minted, k);
    }
  }

  lemma DeliverRetirePreserves(p: Pair, i: nat, minted: L.Identity)
    requires PairInv(p) && i < |p.remote.sent|
    ensures PairInv(PairNext(p, DeliverRetire(i, minted)))
  {
    var s := p.remote.sent[i];
    L.NextPreserves(p.local, L.RetireStep(s, minted));
    if p.local.deque.Largest() <= VARINT_MAX {
      RetireStaysAcknowledged(p, s, minted);
      RetireKeepsOthers(p.local, s, minted, 0);
    }
  }

  lemma {:induction false} IssueAllKeeps(l: L.Local, drawn: seq<L.Identity>, k: nat)
    requires l.deque.Largest() + |drawn| <= VARINT_MAX + 1
    ensures l.frames <= L.IssueAll(l, drawn).frames
    ensures L.IssueAll(l, drawn).deque.Largest() == l.deque.Largest() + |drawn|
    ensures L.Unretired(l, k) || l.deque.Largest() <= k < l.deque.Largest() + |drawn| ==>
              L.Unretired(L.IssueAll(l, drawn), k)
    decreases |drawn|
  {
    if drawn != [] { IssueAllKeeps(L.Issue(l, drawn[0]), drawn[1..], k); }
  }

  lemma LearnLimitPreserves(p: Pair, drawn: seq<L.Identity>)
    requires PairInv(p)
    ensures PairInv(PairNext(p, LearnLimit(drawn)))
  {
    var step := L.SetLimitStep(p.remote.limit, drawn);
    L.NextPreserves(p.local, step);
    var l' := L.Next(p.local, step);
    if L.Enabled(p.local, step) && 2 <= p.remote.limit {
      IssueAllKeeps(p.local, drawn, 0);
      forall k: nat | k < l'.deque.Largest() && !L.Unretired(l', k) ensures k in p.remote.sent {
        IssueAllKeeps(p.local, drawn, k);
      }
    }
  }

  // ---------------------------------------------------------------- a path's calls

  lemma ApplyIsQuiet(r: Remote)
    requires Inv(r) && Settled(r)
    ensures Steppable(r) && Inv(Apply(r)) && Settled(Apply(r)) && Apply(r).sent == r.sent && Apply(r).cids == r.cids
    ensures Keeps(r, Apply(r), ApplyStep)
  {
    var r1 := WithNewCell(r);
    WithNewCellPreserves(r);
    ApplyPreserves(r);
    ArrangeIsQuiet(r1);
    forall id | 0 <= id < |r.cells| && r.cells[id].held != [] ensures Apply(r).cells[id] == r.cells[id] {
      assert r1.cells[id] == r.cells[id];
    }
  }

  lemma ReviseIsQuiet(r: Remote, dcid: ConnectionId)
    requires Inv(r) && Settled(r) && CanRevise(r)
    ensures var r' := Revise(r, dcid);
            && Inv(r') && Settled(r') && r'.sent == r.sent && r'.cids.Largest() == r.cids.Largest()
            && (forall k: nat :: 0 < k && r'.cids.Contains(k) ==> r.cids.Contains(k) && r'.cids.At(k) == r.cids.At(k))
    ensures Keeps(r, Revise(r, dcid), ReviseStep(dcid))
  {
    RevisePreserves(r, dcid);
    var r' := Revise(r, dcid);
    forall k: nat | 0 < k && r'.cids.Contains(k) ensures r.cids.Contains(k) && r'.cids.At(k) == r.cids.At(k) {
      assert r'.cids.Get(k) == r.cids.Get(k);
    }
  }

  lemma CellStepIsQuiet(r: Remote, step: Step)
    requires Inv(r) && Settled(r) && Enabled(r, step) && (step.BorrowStep? || step.RenewStep? || step.RetireStep?)
    ensures var r' := Exec(r, step);
            && Inv(r') && Settled(r') && r'.cids == r.cids && (!step.RetireStep? ==> r'.sent == r.sent)
            && r.sent <= r'.sent && Keeps(r, r', step)
  {
    NextPreserves(r, step);
    if step.RenewStep? {
      assert |r.cells[step.id].held| <= 1;
      assert RenewSends(r.cells[step.id]) == [] by { assert Sequences([]) == []; }
    }
  }

  lemma PathPreserves(p: Pair, step: Step)
    requires PairInv(p) && !step.NewCidStep?
    ensures PairInv(PairNext(p, Path(step)))
    ensures !step.RetireStep? ==> PairNext(p, Path(step)).remote.sent == p.remote.sent
    ensures Keeps(p.remote, PairNext(p, Path(step)).remote, step)
  {
    var r := p.remote;
    NextPreserves(r, step);
    if Enabled(r, step) {
      match step
      case ApplyStep => ApplyIsQuiet(r);
      case ReviseStep(dcid) => ReviseIsQuiet(r, dcid);
      case _ => CellStepIsQuiet(r, step);
    }
  }

  // ---------------------------------------------------------------- whole runs

  lemma PairNextPreserves(p: Pair, s: PairStep)
    requires PairInv(p)
    ensures PairInv(PairNext(p, s))
  {
    match s
    case LearnLimit(drawn) => LearnLimitPreserves(p, drawn);
    case DeliverNew(i) => if i < |p.local.frames| { DeliverNewPreserves(p, i); }
    case DeliverRetire(i, minted) => if i < |p.remote.sent| { DeliverRetirePreserves(p, i, minted); }
    case Path(step) => if !step.NewCidStep? { PathPreserves(p, step); }
  }

  lemma {:induction false} PairReachable(
    scid: ConnectionId, minted: L.Identity, dcid: ConnectionId, limit: nat, steps: seq<PairStep>)
    ensures PairInv(PairRun(Init(scid, minted, dcid, limit), steps))
  {
    var p := Init(scid, minted, dcid, limit);
    if steps == [] {
      L.NewInv(scid, minted);
      NewSatisfiesInv(dcid, limit);
    } else {
      var n := |steps| - 1;
      PairReachable(scid, minted, dcid, limit, steps[..n]);
      PairNextPreserves(PairRun(p, steps[..n]), steps[n]);
    }
  }

  /** No cell holds `s`, and `s` has been handed out. */
  ghost predicate Spent(r: Remote, s: nat) {
    s < r.cursor && forall id :: 0 <= id < |r.cells| ==> !Holds(r.cells[id], s)
  }

  ghost predicate RetiresAccepted(p: Pair) {
    forall i :: 0 <= i < |p.remote.sent| ==> L.RecvRetireResult(p.local, p.remote.sent[i]).Success?
  }

  ghost predicate RetirePriorToSpent(p: Pair) {
    forall i, s: nat :: 0 <= i < |p.local.frames| && s < p.local.frames[i].retirePriorTo ==> Spent(p.remote, s)
  }

  /** The first index is exempt: its CID is learnt from a packet header. */
  ghost predicate CidsAsIssued(p: Pair)
    requires PairInv(p)
  {
    forall k: nat :: 0 < k && p.remote.ready.Contains(k) && !p.remote.cells[p.remote.ready.At(k)].retired ==>
      p.remote.cells[p.remote.ready.At(k)].held == [Held(k, p.local.frames[k - 1].cid)]
  }

  lemma PairConsequences(p: Pair)
    requires PairInv(p)
    ensures RetiresAccepted(p) && RetirePriorToSpent(p)
  {
    forall i | 0 <= i < |p.remote.sent| ensures L.RecvRetireResult(p.local, p.remote.sent[i]).Success? {
      RetireIsAlwaysAccepted(p, i);
    }
    forall i, s: nat | 0 <= i < |p.local.frames| && s < p.local.frames[i].retirePriorTo ensures Spent(p.remote, s) {
      RetirePriorToIsStale(p, i, s);
    }
  }

  lemma PairCids(p: Pair)
    requires PairInv(p)
    ensures CidsAsIssued(p)
  {
    forall k: nat | 0 < k && p.remote.ready.Contains(k) && !p.remote.cells[p.remote.ready.At(k)].retired
      ensures p.remote.cells[p.remote.ready.At(k)].held == [Held(k, p.local.frames[k - 1].cid)]
    {
      assert p.remote.cids.At(k).Some?;
      assert |p.remote.cells[p.remote.ready.At(k)].held| <= 1;
    }
  }

  /**
   * In every run of an honest pair: the issuer never rejects a RETIRE_CONNECTION_ID; no issued
   * retire-prior-to covers a sequence a cell holds or one not yet handed out; and the CID a live
   * cell uses at a later index is the one issued for that index.
   */
  lemma HonestPair(
    scid: ConnectionId, minted: L.Identity, dcid: ConnectionId, limit: nat, steps: seq<PairStep>)
    ensures var p := PairRun(Init(scid, minted, dcid, limit), steps);
            PairInv(p) && RetiresAccepted(p) && RetirePriorToSpent(p) && CidsAsIssued(p)
  {
    PairReachable(scid, minted, dcid, limit, steps);
    PairConsequences(PairRun(Init(scid, minted, dcid, limit), steps));
    PairCids(PairRun(Init(scid, minted, dcid, limit), steps));
  }

  /** A live cell's sequence is final: only retiring that very cell gives it up, or sends anything. */
  lemma AssignmentIsFinal(p: Pair, s: PairStep)
    requires PairInv(p)
    ensures var r, r' := p.remote, PairNext(p, s).remote;
            && Keeps(r, r', if s.Path? then s.step else ApplyStep)
            && (!(s.Path? && s.step.RetireStep?) ==> r'.sent == r.sent)
  {
    match s
    case LearnLimit(drawn) =>
    case DeliverNew(i) => if i < |p.local.frames| { DeliverNewIsQuiet(p, i); }
    case DeliverRetire(i, minted) =>
    case Path(step) => if !step.NewCidStep? { PathPreserves(p, step); }
  }

  // ---------------------------------------------------------------- the CID limit

  /** The lowest sequence still usable once `s` is retired. */
  function LowestOther(l: L.Local, s: nat): nat
    requires L.Unretired(l, s)
  {
    l.deque.offset + L.LeadingNones(l.deque.items[s - l.deque.offset := None])
  }

  /** At least two sequences are usable, so one other than `s` is. */
  lemma AnotherIsUsable(l: L.Local, s: nat)
    requires L.Inv(l) && L.Unretired(l, s)
    ensures LowestOther(l, s) < l.deque.Largest()
  {
    var items := l.deque.items[s - l.deque.offset := None];
    L.CountSomeUpdate(l.deque.items, s - l.deque.offset);
    L.CountSomeDrop(items, L.LeadingNones(items));
    L.CountSomeBound(items[L.LeadingNones(items)..]);
  }

  lemma LowestOtherIsLowest(l: L.Local, s: nat)
    requires L.Inv(l) && L.Unretired(l, s)
    ensures var k := LowestOther(l, s);
            k != s && L.Unretired(l, k) && forall j: nat :: L.Unretired(l, j) && j != s ==> k <= j
  {
    AnotherIsUsable(l, s);
    var items := l.deque.items[s - l.deque.offset := None];
    forall j: nat | L.Unretired(l, j) && j != s ensures LowestOther(l, s) <= j {
      assert items[j - l.deque.offset].Some?;
    }
  }

  /** Retiring `s` would be answered with a frame beyond the limit: retired slots lie in between. */
  predicate TooWide(l: L.Local, s: nat, limit: nat) {
    L.Unretired(l, s) && l.deque.Largest() - LowestOther(l, s) > limit
  }

  /**
   * The frame that answers a retirement is rejected exactly when the sequences from the lowest one
   * still usable up to the next one to be issued, retired slots included, are more than the limit.
   */
  lemma RejectedIff(l: L.Local, r: Remote, s: nat, minted: L.Identity)
    requires L.Inv(l) && L.Unretired(l, s) && l.deque.Largest() <= VARINT_MAX
    ensures var l' := L.RecvRetire(l, s, minted);
            && |l'.frames| == |l.frames| + 1 && l.frames < l'.frames
            && (RecvNewCidResult(r, l'.frames[|l.frames|]).Failure? <==> TooWide(l, s, r.limit))
  {
    LowestOtherIsLowest(l, s);
  }

  /** The first frame is rejected only by a store that allows no CID at all. */
  lemma FirstFrameRejectedIff(scid: ConnectionId, minted: L.Identity, r: Remote)
    ensures RecvNewCidResult(r, L.New(scid, minted).frames[0]).Failure? <==> r.limit == 0
  {
  }

  lemma {:induction false} IssueAllFrames(l: L.Local, drawn: seq<L.Identity>, i: nat)
    requires l.deque.Largest() + |drawn| <= VARINT_MAX + 1
    requires |l.frames| <= i < |L.IssueAll(l, drawn).frames|
    ensures L.IssueAll(l, drawn).frames[i].sequence < l.deque.Largest() + |drawn|
    ensures L.IssueAll(l, drawn).frames[i].retirePriorTo == l.deque.offset
    decreases |drawn|
  {
    if drawn != [] {
      var l1 := L.Issue(l, drawn[0]);
      IssueAllKeeps(l1, drawn[1..], 0);
      if i > |l.frames| {
        IssueAllFrames(l1, drawn[1..], i);
      } else {
        assert L.IssueAll(l, drawn).frames[i] == l1.frames[i];
      }
    }
  }

  /** No frame issued on learning the limit is rejected. */
  lemma LimitFramesAccepted(l: L.Local, r: Remote, drawn: seq<L.Identity>, i: nat)
    requires L.Enabled(l, L.SetLimitStep(r.limit, drawn)) && 2 <= r.limit
    requires |l.frames| <= i < |L.SetLimit(l, r.limit, drawn).frames|
    ensures RecvNewCidResult(r, L.SetLimit(l, r.limit, drawn).frames[i]).Success?
  {
    IssueAllFrames(l, drawn, i);
  }

  /** Some frame issued so far would end the connection on arrival. */
  ghost predicate AnyRejected(p: Pair) {
    exists i :: 0 <= i < |p.local.frames| && RecvNewCidResult(p.remote, p.local.frames[i]).Failure?
  }

  /** The step delivers a retirement that is answered beyond the limit. */
  predicate HitsLimit(p: Pair, s: PairStep) {
    && s.DeliverRetire? && s.index < |p.remote.sent| && p.local.deque.Largest() <= VARINT_MAX
    && TooWide(p.local, p.remote.sent[s.index], p.remote.limit)
  }

  lemma LimitIsConstant(p: Pair, s: PairStep)
    requires PairInv(p)
    ensures PairNext(p, s).remote.limit == p.remote.limit
  {
    match s
    case DeliverNew(i) => if i < |p.local.frames| { NextPreserves(p.remote, NewCidStep(p.local.frames[i])); }
    case Path(step) => NextPreserves(p.remote, step);
    case _ =>
  }

  lemma RetireRejects(p: Pair, i: nat, minted: L.Identity)
    requires PairInv(p) && i < |p.remote.sent|
    ensures var step := DeliverRetire(i, minted);
            AnyRejected(PairNext(p, step)) <==> AnyRejected(p) || HitsLimit(p, step)
  {
    var l, s := p.local, p.remote.sent[i];
    var l' := PairNext(p, DeliverRetire(i, minted)).local;
    if l.deque.Largest() <= VARINT_MAX && L.Unretired(l, s) {
      RejectedIff(l, p.remote, s, minted);
      assert forall k :: 0 <= k < |l.frames| ==> l'.frames[k] == l.frames[k];
      if HitsLimit(p, DeliverRetire(i, minted)) {
        assert RecvNewCidResult(p.remote, l'.frames[|l.frames|]).Failure?;
      }
    } else {
      assert l' == l;
    }
  }

  lemma LimitRejectsNothing(p: Pair, drawn: seq<L.Identity>)
    requires PairInv(p) && 2 <= p.remote.limit
    ensures AnyRejected(PairNext(p, LearnLimit(drawn))) <==> AnyRejected(p)
  {
    var l, step := p.local, L.SetLimitStep(p.remote.limit, drawn);
    var l' := L.Next(l, step);
    if L.Enabled(l, step) {
      IssueAllKeeps(l, drawn, 0);
      assert forall k :: 0 <= k < |l.frames| ==> l'.frames[k] == l.frames[k];
      forall k | |l.frames| <= k < |l'.frames| ensures RecvNewCidResult(p.remote, l'.frames[k]).Success? {
        LimitFramesAccepted(l, p.remote, drawn, k);
      }
    }
  }

  lemma StepRejectsIff(p: Pair, s: PairStep)
    requires PairInv(p) && 2 <= p.remote.limit
    ensures AnyRejected(PairNext(p, s)) <==> AnyRejected(p) || HitsLimit(p, s)
  {
    LimitIsConstant(p, s);
    match s
    case LearnLimit(drawn) => LimitRejectsNothing(p, drawn);
    case DeliverRetire(i, minted) => if i < |p.remote.sent| { RetireRejects(p, i, minted); }
    case _ =>
  }

  /** Some retirement delivered in the run was answered beyond the limit. */
  ghost predicate EverHitsLimit(p: Pair, steps: seq<PairStep>) {
    steps != [] &&
    (EverHitsLimit(p, steps[..|steps| - 1]) || HitsLimit(PairRun(p, steps[..|steps| - 1]), steps[|steps| - 1]))
  }

  /** An honest pair issues a frame that its peer rejects if and only if such a retirement was delivered. */
  lemma {:induction false} LimitErrorIff(
    scid: ConnectionId, minted: L.Identity, dcid: ConnectionId, limit: nat, steps: seq<PairStep>)
    requires 2 <= limit
    ensures var p := Init(scid, minted, dcid, limit);
            PairRun(p, steps).remote.limit == limit && (AnyRejected(PairRun(p, steps)) <==> EverHitsLimit(p, steps))
  {
    var p := Init(scid, minted, dcid, limit);
    if steps == [] {
      FirstFrameRejectedIff(scid, minted, p.remote);
    } else {
      var before, last := steps[..|steps| - 1], steps[|steps| - 1];
      LimitErrorIff(scid, minted, dcid, limit, before);
      PairReachable(scid, minted, dcid, limit, before);
      StepRejectsIff(PairRun(p, before), last);
      LimitIsConstant(PairRun(p, before), last);
    }
  }

  // ---------------------------------------------------------------- retirement in order is safe

  /** Every retirement delivered names the issuer's lowest usable sequence, or one retired already. */
  ghost predicate InOrder(p: Pair, steps: seq<PairStep>) {
    steps == [] ||
    var before, last := PairRun(p, steps[..|steps| - 1]), steps[|steps| - 1];
    && InOrder(p, steps[..|steps| - 1])
    && (last.DeliverRetire? && last.index < |before.remote.sent| ==>
          var s := before.remote.sent[last.index]; L.Unretired(before.local, s) ==> s == before.local.deque.offset)
  }

  predicate NoHoles(l: L.Local) { forall i :: 0 <= i < |l.deque.items| ==> l.deque.items[i].Some? }

  lemma {:induction false} CountAllSome<T>(items: seq<Option<T>>)
    requires forall i :: 0 <= i < |items| ==> items[i].Some?
    ensures L.CountSome(items) == |items|
  {
    if items != [] { CountAllSome(items[..|items| - 1]); }
  }

  lemma {:induction false} IssueAllNoHoles(l: L.Local, drawn: seq<L.Identity>)
    requires NoHoles(l) && l.deque.Largest() + |drawn| <= VARINT_MAX + 1
    ensures NoHoles(L.IssueAll(l, drawn))
    decreases |drawn|
  {
    if drawn != [] { IssueAllNoHoles(L.Issue(l, drawn[0]), drawn[1..]); }
  }

  lemma RetireLowestNoHoles(l: L.Local, minted: L.Identity)
    requires L.Inv(l) && NoHoles(l) && l.deque.Largest() <= VARINT_MAX
    ensures NoHoles(L.RecvRetire(l, l.deque.offset, minted))
    ensures LowestOther(l, l.deque.offset) == l.deque.offset + 1
  {
    var items := l.deque.items[0 := None];
    CountAllSome(l.deque.items);
    assert items[1].Some?;
    assert L.LeadingNones(items) == 1;
  }

  lemma InOrderStep(p: Pair, s: PairStep)
    requires PairInv(p) && NoHoles(p.local) && 2 <= p.remote.limit
    requires s.DeliverRetire? && s.index < |p.remote.sent| && L.Unretired(p.local, p.remote.sent[s.index]) ==>
               p.remote.sent[s.index] == p.local.deque.offset
    ensures NoHoles(PairNext(p, s).local) && !HitsLimit(p, s)
  {
    var l := p.local;
    CountAllSome(l.deque.items);
    match s
    case LearnLimit(drawn) =>
      if L.Enabled(l, L.SetLimitStep(p.remote.limit, drawn)) { IssueAllNoHoles(l, drawn); }
    case DeliverRetire(i, minted) =>
      if i < |p.remote.sent| && l.deque.Largest() <= VARINT_MAX && L.Unretired(l, p.remote.sent[i]) {
        RetireLowestNoHoles(l, minted);
      }
    case _ =>
  }

  /** Over every run in which retirements arrive in order no issued frame is ever rejected. */
  lemma {:induction false} InOrderIsSafe(
    scid: ConnectionId, minted: L.Identity, dcid: ConnectionId, limit: nat, steps: seq<PairStep>)
    requires 2 <= limit && InOrder(Init(scid, minted, dcid, limit), steps)
    ensures var p := PairRun(Init(scid, minted, dcid, limit), steps); !AnyRejected(p) && NoHoles(p.local)
  {
    var p0 := Init(scid, minted, dcid, limit);
    LimitErrorIff(scid, minted, dcid, limit, steps);
    if steps != [] {
      var before, last := steps[..|steps| - 1], steps[|steps| - 1];
      var p := PairRun(p0, before);
      InOrderIsSafe(scid, minted, dcid, limit, before);
      LimitErrorIff(scid, minted, dcid, limit, before);
      PairReachable(scid, minted, dcid, limit, before);
      CountAllSome(p.local.deque.items);
      InOrderStep(p, last);
    }
  }

  // ---------------------------------------------------------------- progress

  /** The frame at `i` was delivered at least once. */
  ghost predicate Arrived(p: Pair, steps: seq<PairStep>, i: nat) {
    steps != [] &&
    var before, last := steps[..|steps| - 1], steps[|steps| - 1];
    Arrived(p, before, i) || (last == DeliverNew(i) && i < |PairRun(p, before).local.frames|)
  }

  /** Frames once issued are there to stay. */
  lemma FramesGrow(p: Pair, s: PairStep)
    requires PairInv(p)
    ensures p.local.frames <= PairNext(p, s).local.frames
  {
    match s
    case LearnLimit(drawn) =>
      if L.Enabled(p.local, L.SetLimitStep(p.remote.limit, drawn)) && 2 <= p.remote.limit {
        IssueAllKeeps(p.local, drawn, 0);
      }
    case DeliverRetire(i, minted) =>
      if i < |p.remote.sent| && p.local.deque.Largest() <= VARINT_MAX {
        RetireKeepsOthers(p.local, p.remote.sent[i], minted, 0);
      }
    case _ =>
  }

  lemma PairKnownStays(p: Pair, s: PairStep, k: nat)
    requires PairInv(p) && Known(p.remote, k)
    ensures Known(PairNext(p, s).remote, k)
  {
    match s
    case DeliverNew(i) => if i < |p.local.frames| { KnownStays(p.remote, NewCidStep(p.local.frames[i]), k); }
    case Path(step) => KnownStays(p.remote, step, k);
    case _ =>
  }

  /** The frame at `i`, unless it is beyond the limit, has left its sequence with the store. */
  ghost predicate Taken(p: Pair, i: nat) {
    && i < |p.local.frames|
    && (p.local.frames[i].sequence - p.local.frames[i].retirePriorTo <= p.remote.limit ==> Known(p.remote, i + 1))
  }

  lemma DeliveredIsTaken(p: Pair, i: nat)
    requires PairInv(p) && i < |p.local.frames|
    ensures Taken(PairNext(p, DeliverNew(i)), i)
  {
    IssuedFramesAreFaithful(p, i);
    if p.local.frames[i].sequence - p.local.frames[i].retirePriorTo <= p.remote.limit {
      KeptIsKnown(p.remote, p.local.frames[i]);
    }
    LimitIsConstant(p, DeliverNew(i));
    assert PairNext(p, DeliverNew(i)).remote == RecvNewCid(p.remote, p.local.frames[i]);
  }

  lemma TakenStays(p: Pair, s: PairStep, i: nat)
    requires PairInv(p) && Taken(p, i)
    ensures Taken(PairNext(p, s), i)
  {
    FramesGrow(p, s);
    LimitIsConstant(p, s);
    assert PairNext(p, s).local.frames[i] == p.local.frames[i];
    if Known(p.remote, i + 1) { PairKnownStays(p, s, i + 1); }
  }

  lemma {:induction false} ArrivedIsTaken(
    scid: ConnectionId, minted: L.Identity, dcid: ConnectionId, limit: nat, steps: seq<PairStep>, i: nat)
    requires Arrived(Init(scid, minted, dcid, limit), steps, i)
    ensures Taken(PairRun(Init(scid, minted, dcid, limit), steps), i)
  {
    var p0 := Init(scid, minted, dcid, limit);
    var before, last := steps[..|steps| - 1], steps[|steps| - 1];
    PairReachable(scid, minted, dcid, limit, before);
    if Arrived(p0, before, i) {
      ArrivedIsTaken(scid, minted, dcid, limit, before, i);
      TakenStays(PairRun(p0, before), last, i);
    } else {
      DeliveredIsTaken(PairRun(p0, before), i);
    }
  }

  lemma {:induction false} LimitOverRun(
    scid: ConnectionId, minted: L.Identity, dcid: ConnectionId, limit: nat, steps: seq<PairStep>)
    ensures PairRun(Init(scid, minted, dcid, limit), steps).remote.limit == limit
  {
    if steps != [] {
      LimitOverRun(scid, minted, dcid, limit, steps[..|steps| - 1]);
      PairReachable(scid, minted, dcid, limit, steps[..|steps| - 1]);
      LimitIsConstant(PairRun(Init(scid, minted, dcid, limit), steps[..|steps| - 1]), steps[|steps| - 1]);
    }
  }

  /**
   * Progress: once every issued frame has arrived at least once, in any order, and none is beyond
   * the limit, the store has every issued sequence from its offset on with the CID issued for it,
   * and a cell waits only if everything issued has been handed out.
   */
  lemma AllArrivedServes(
    scid: ConnectionId, minted: L.Identity, dcid: ConnectionId, limit: nat, steps: seq<PairStep>)
    requires var p := PairRun(Init(scid, minted, dcid, limit), steps);
             forall i :: 0 <= i < |p.local.frames| ==>
               && Arrived(Init(scid, minted, dcid, limit), steps, i)
               && p.local.frames[i].sequence - p.local.frames[i].retirePriorTo <= limit
    ensures var p := PairRun(Init(scid, minted, dcid, limit), steps);
            && PairInv(p) && |p.local.frames| == p.local.deque.Largest() - 1
            && (forall k: nat :: p.remote.cids.offset <= k < p.local.deque.Largest() ==>
                  && p.remote.cids.Contains(k) && p.remote.cids.At(k).Some?
                  && (0 < k ==> p.remote.cids.At(k).value.cid == p.local.frames[k - 1].cid))
            && (p.remote.pending != [] ==> p.remote.cursor == p.local.deque.Largest())
  {
    var p := PairRun(Init(scid, minted, dcid, limit), steps);
    PairReachable(scid, minted, dcid, limit, steps);
    LimitOverRun(scid, minted, dcid, limit, steps);
    forall k: nat | p.remote.cids.offset <= k < p.local.deque.Largest()
      ensures p.remote.cids.Contains(k) && p.remote.cids.At(k).Some?
    {
      if 0 < k { ArrivedIsTaken(scid, minted, dcid, limit, steps, k - 1); }
    }
  }
}
