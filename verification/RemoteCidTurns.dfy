/**
 * The same store at the granularity of its locks. A call holds the store's lock to its end and
 * takes the cells' locks one at a time (`qbase/src/cid/remote_cid.rs`), so a path may borrow, drop
 * or retire any cell between two turns of the loops that requeue and that arrange. What a turn does
 * outside a cell's lock touches only what the store's lock protects.
 */
module RemoteCidTurns {
  import opened Prelude
  import opened IndexDeques
  import opened RemoteCidSpec
  import opened RemoteCidProofs

  /** Where the call that holds the store's lock stands. */
  datatype Phase = Idle | Retiring(tomb: nat) | Arranging

  datatype Shared = Shared(store: Remote, phase: Phase)

  /** A call starts, the running call takes one more turn, or a path uses a cell. */
  datatype Turn = Call(step: Step) | Continue | OnCell(step: Step)

  predicate UsesCell(s: Step) { s.BorrowStep? || s.RenewStep? || s.RetireStep? }

  predicate Possible(sh: Shared, t: Turn) {
    match t
    case Call(step) => sh.phase.Idle? && Steppable(sh.store) && Enabled(sh.store, step) && !UsesCell(step)
    case Continue => !sh.phase.Idle?
    case OnCell(step) => UsesCell(step) && Enabled(sh.store, step)
  }

  /** What a call does before its first loop. */
  ghost function Begin(r: Remote, step: Step): Shared
    requires Steppable(r) && Enabled(r, step) && !UsesCell(step)
  {
    match step
    case ApplyStep => Shared(WithNewCell(r), Arranging)
    case NewCidStep(f) => if Accepts(r, f) then BeginRetire(Stow(r, f), f.retirePriorTo) else Shared(r, Idle)
    case ReviseStep(dcid) => Shared(Revise(r, dcid), Idle)
  }

  /** The CIDs below `tomb` are forgotten and the cursor passes it; the ready queue follows in turns. */
  function BeginRetire(r: Remote, tomb: nat): Shared {
    if tomb <= r.ready.offset then Shared(r, Arranging)
    else Shared(r.(cids := r.cids.DrainTo(tomb), cursor := Max(r.cursor, tomb)), Retiring(tomb))
  }

  /** The first ready cell leaves the queue; if it is live now, it waits. */
  function PopReady(r: Remote): Remote
    requires IdsOk(r) && r.ready.items != []
  {
    var id := r.ready.items[0];
    r.(ready := r.ready.PopFront(), pending := r.pending + if r.cells[id].retired then [] else [id])
  }

  function RetireTurn(r: Remote, tomb: nat): Shared
    requires IdsOk(r)
  {
    if r.ready.items != [] && r.ready.offset < tomb then Shared(PopReady(r), Retiring(tomb))
    else Shared(if r.ready.Largest() < tomb then Skipped(r, r.ready.Largest(), tomb) else r, Arranging)
  }

  function ArrangeTurn(r: Remote): Shared
    requires Arrangeable(r)
  {
    if CanArrange(r) then Shared(ArrangeOnce(r), Arranging) else Shared(r, Idle)
  }

  ghost function ContinueTurn(sh: Shared): Shared {
    if sh.phase.Retiring? && IdsOk(sh.store) then RetireTurn(sh.store, sh.phase.tomb)
    else if sh.phase.Arranging? && Arrangeable(sh.store) then ArrangeTurn(sh.store)
    else sh
  }

  function CellTurn(r: Remote, step: Step): Remote
    requires UsesCell(step) && Enabled(r, step)
  {
    match step
    case BorrowStep(id) => Borrow(r, id)
    case RenewStep(id) => Renew(r, id)
    case RetireStep(id) => Retire(r, id)
  }

  ghost function TurnNext(sh: Shared, t: Turn): Shared {
    if !Possible(sh, t) then sh
    else
      match t
      case Call(step) => Begin(sh.store, step)
      case Continue => ContinueTurn(sh)
      case OnCell(step) => sh.(store := CellTurn(sh.store, step))
  }

  ghost function TurnRun(sh: Shared, turns: seq<Turn>): Shared {
    if turns == [] then sh else TurnNext(TurnRun(sh, turns[..|turns| - 1]), turns[|turns| - 1])
  }

  // ---------------------------------------------------------------- what every turn keeps

  /** All that does not depend on how far the ready queue has followed the cursor. */
  ghost predicate Loose(r: Remote) {
    && IdsOk(r) && Slots(r) && Queues(r) && Heads(r) && CellsOk(r)
    && Balanced(r.cells, r.sent, r.ready.Largest())
    && r.cursor <= r.cids.Largest() <= VARINT_MAX + 1
    && Bounded(r)
  }

  /** The ready queue has caught up. */
  predicate CaughtUp(r: Remote) { r.ready.offset == r.cids.offset && r.ready.Largest() == r.cursor }

  ghost predicate TurnInv(sh: Shared) {
    && Loose(sh.store)
    && match sh.phase
       case Idle => CaughtUp(sh.store) && Eager(sh.store)
       case Arranging => CaughtUp(sh.store)
       case Retiring(tomb) =>
         && sh.store.cids.offset == tomb && sh.store.ready.offset <= tomb
         && sh.store.cursor == Max(sh.store.ready.Largest(), tomb)
  }

  lemma CoreIsLoose(r: Remote)
    ensures Core(r) && Bounded(r) <==> Loose(r) && CaughtUp(r)
  {
  }

  /** A cell that keeps its head sequence, or is retired, keeps everything but the ledger. */
  lemma CellTurnKeeps(r: Remote, id: nat, c: Cell, sends: seq<nat>)
    requires Loose(r) && id < |r.cells| && CellOk(c)
    requires r.cells[id].retired ==> c.retired
    requires !c.retired && r.cells[id].held != [] ==> c.held != [] && c.held[0].sequence == r.cells[id].held[0].sequence
    requires Exchange(r.cells[id], c, sends, r.ready.Largest(), r.ready.Largest())
    ensures Loose(r.(cells := r.cells[id := c], sent := r.sent + sends))
  {
    var bound := r.(cursor := r.ready.Largest());
    LedgerUpdate(bound, id, c, sends, r.ready.Largest());
    var r' := r.(cells := r.cells[id := c], sent := r.sent + sends);
    assert Heads(r');
  }

  lemma OnCellKeeps(r: Remote, step: Step)
    requires Loose(r) && UsesCell(step) && Enabled(r, step)
    ensures Loose(CellTurn(r, step))
  {
    var id := step.id;
    var c := r.cells[id];
    assert CellOk(c);
    match step
    case BorrowStep(_) =>
      CellTurnKeeps(r, id, BorrowedCell(c), []);
      assert r.sent + [] == r.sent;
    case RenewStep(_) =>
      RenewExchange(c, r.ready.Largest());
      CellTurnKeeps(r, id, Renewed(c), RenewSends(c));
    case RetireStep(_) =>
      CellTurnKeeps(r, id, RetiredCell(c), RetireSends(c));
  }

  lemma PopReadyQueues(r: Remote)
    requires Queues(r) && r.ready.items != []
    ensures Queues(PopReady(r))
  {
    var id, back, r' := r.ready.items[0], r.ready.items[1..], PopReady(r);
    assert r.ready.items == [id] + back;
    DistinctConcat(r.pending, r.ready.items);
    DistinctConcat([id], back);
    DistinctConcat(r.pending, r'.pending[|r.pending|..]);
    DistinctConcat(r'.pending, back);
    assert r'.pending == r.pending + r'.pending[|r.pending|..];
  }

  lemma PopReadyKeeps(r: Remote)
    requires Loose(r) && r.ready.items != []
    ensures Loose(PopReady(r))
  {
    PopReadyQueues(r);
    var r' := PopReady(r);
    forall k: nat | r'.ready.Contains(k) ensures r.ready.Contains(k) && r'.ready.At(k) == r.ready.At(k) {}
  }

  /** Sequences that no cell was given are retired once. */
  lemma SkipKeeps(r: Remote, tomb: nat)
    requires Loose(r) && r.ready.items == [] && r.ready.Largest() < tomb
    ensures Loose(Skipped(r, r.ready.Largest(), tomb))
  {
    var from := r.ready.Largest();
    var jumped := Range(from, tomb);
    forall s: nat ensures HeldCount(r.cells, s) + Count(r.sent + jumped, s) == if s < tomb then 1 else 0 {
      CountConcat(r.sent, jumped, s);
      CountRange(from, tomb, s);
      assert HeldCount(r.cells, s) + Count(r.sent, s) == if s < from then 1 else 0;
    }
  }

  lemma RetireTurnKeeps(sh: Shared)
    requires TurnInv(sh) && sh.phase.Retiring?
    ensures TurnInv(ContinueTurn(sh))
  {
    var r, tomb := sh.store, sh.phase.tomb;
    if r.ready.items != [] && r.ready.offset < tomb {
      PopReadyKeeps(r);
    } else if r.ready.Largest() < tomb {
      SkipKeeps(r, tomb);
    }
  }

  lemma ArrangeTurnKeeps(sh: Shared)
    requires TurnInv(sh) && sh.phase.Arranging?
    ensures TurnInv(ContinueTurn(sh))
  {
    CoreIsLoose(sh.store);
    if CanArrange(sh.store) {
      ArrangeOncePreserves(sh.store);
      CoreIsLoose(ArrangeOnce(sh.store));
    }
  }

  lemma BeginRetireKeeps(r: Remote, f: NewCidFrame)
    requires Inv(r) && FrameOk(f) && Accepts(r, f)
    ensures TurnInv(BeginRetire(Stow(r, f), f.retirePriorTo))
  {
    var stowed, tomb := Stow(r, f), f.retirePriorTo;
    StowPreserves(r, f);
    CoreIsLoose(stowed);
    if stowed.ready.offset < tomb {
      var r' := BeginRetire(stowed, tomb).store;
      forall k: nat | r'.cids.Contains(k) ensures stowed.cids.Contains(k) && r'.cids.At(k) == stowed.cids.At(k) {
        assert r'.cids.Get(k) == Some(r'.cids.At(k));
        assert stowed.cids.Get(k).Some?;
      }
    }
  }

  lemma BeginKeeps(r: Remote, step: Step)
    requires Inv(r) && Enabled(r, step) && !UsesCell(step)
    ensures TurnInv(Begin(r, step))
  {
    match step
    case ApplyStep =>
      WithNewCellPreserves(r);
      CoreIsLoose(WithNewCell(r));
    case NewCidStep(f) => if Accepts(r, f) { BeginRetireKeeps(r, f); }
    case ReviseStep(dcid) => RevisePreserves(r, dcid);
  }

  lemma TurnKeeps(sh: Shared, t: Turn)
    requires TurnInv(sh)
    ensures TurnInv(TurnNext(sh, t))
  {
    if Possible(sh, t) {
      match t
      case Call(step) =>
        CoreIsLoose(sh.store);
        BeginKeeps(sh.store, step);
      case Continue => if sh.phase.Retiring? { RetireTurnKeeps(sh); } else { ArrangeTurnKeeps(sh); }
      case OnCell(step) => OnCellKeeps(sh.store, step);
    }
  }

  lemma {:induction false} TurnsKeep(sh: Shared, turns: seq<Turn>)
    requires TurnInv(sh)
    ensures TurnInv(TurnRun(sh, turns))
  {
    if turns != [] {
      TurnsKeep(sh, turns[..|turns| - 1]);
      TurnKeeps(TurnRun(sh, turns[..|turns| - 1]), turns[|turns| - 1]);
    }
  }

  // ---------------------------------------------------------------- the ledger between the turns

  function Start(dcid: ConnectionId, limit: nat): Shared { Shared(RemoteCidSpec.New(dcid, limit), Idle) }

  /**
   * In every state between two turns, under every interleaving: a sequence below the end of the
   * ready queue is held by exactly one cell, which is live, or has had exactly one
   * RETIRE_CONNECTION_ID, never both; from there on it is neither. The end of the ready queue is the
   * cursor, unless a frame is being processed that retires sequences no cell was given.
   */
  lemma LedgerBetweenTurns(dcid: ConnectionId, limit: nat, turns: seq<Turn>, s: nat)
    ensures var sh := TurnRun(Start(dcid, limit), turns);
            var r, bound := sh.store, sh.store.ready.Largest();
            && (s < bound ==> (s in r.sent <==> !exists id :: 0 <= id < |r.cells| && Holds(r.cells[id], s)))
            && (s < bound && s in r.sent ==> multiset(r.sent)[s] == 1)
            && (s >= bound ==> s !in r.sent && forall id :: 0 <= id < |r.cells| ==> !Holds(r.cells[id], s))
            && (forall id :: 0 <= id < |r.cells| && Holds(r.cells[id], s) ==> !r.cells[id].retired)
            && (forall a, b :: 0 <= a < b < |r.cells| ==> !(Holds(r.cells[a], s) && Holds(r.cells[b], s)))
            && r.cursor == (if sh.phase.Retiring? then Max(bound, sh.phase.tomb) else bound)
  {
    NewSatisfiesInv(dcid, limit);
    CoreIsLoose(RemoteCidSpec.New(dcid, limit));
    TurnsKeep(Start(dcid, limit), turns);
    var r := TurnRun(Start(dcid, limit), turns).store;
    BalanceReading(r.cells, r.sent, r.ready.Largest(), s);
  }

  /** Whenever no call is under way, all that is claimed of the store between whole calls holds. */
  lemma IdleSatisfiesInv(dcid: ConnectionId, limit: nat, turns: seq<Turn>)
    ensures var sh := TurnRun(Start(dcid, limit), turns); sh.phase.Idle? ==> Inv(sh.store)
  {
    NewSatisfiesInv(dcid, limit);
    CoreIsLoose(RemoteCidSpec.New(dcid, limit));
    TurnsKeep(Start(dcid, limit), turns);
    CoreIsLoose(TurnRun(Start(dcid, limit), turns).store);
  }

  // ---------------------------------------------------------------- loans between the turns

  lemma ArrangeTurnKeepsLoan(r: Remote, id: nat, q: nat)
    requires Arrangeable(r) && CanArrange(r) && Lends(r, id, q)
    ensures Lends(ArrangeOnce(r), id, q)
  {
    if r.pending[0] == id && NextCid(r).Some? {
      SequencesConcat([Held(NextCid(r).value.sequence, NextCid(r).value.cid)], r.cells[id].held);
    }
  }

  lemma BeginKeepsLoan(r: Remote, step: Step, id: nat, q: nat)
    requires Inv(r) && Enabled(r, step) && !UsesCell(step) && Lends(r, id, q)
    ensures Lends(Begin(r, step).store, id, q)
  {
    if step.ReviseStep? && r.ready.Contains(0) {
      var c := r.cells[r.ready.At(0)];
      assert Sequences(RevisedCell(c, step.dcid).held) == Sequences(c.held);
    }
  }

  lemma TurnKeepsLoan(sh: Shared, t: Turn, id: nat, q: nat)
    requires TurnInv(sh) && Lends(sh.store, id, q) && t != OnCell(RenewStep(id)) && t != OnCell(RetireStep(id))
    ensures Lends(TurnNext(sh, t).store, id, q)
  {
    if Possible(sh, t) {
      match t
      case Call(step) =>
        CoreIsLoose(sh.store);
        BeginKeepsLoan(sh.store, step, id, q);
      case Continue => if sh.phase.Arranging? && CanArrange(sh.store) { ArrangeTurnKeepsLoan(sh.store, id, q); }
      case OnCell(_) =>
    }
  }

  /**
   * From borrow to drop the borrowed sequence is not retired, whatever turns of whatever calls come
   * between, unless the cell itself is retired.
   */
  lemma {:induction false} BorrowSafetyBetweenTurns(sh: Shared, turns: seq<Turn>, id: nat, q: nat)
    requires TurnInv(sh) && Lends(sh.store, id, q)
    requires OnCell(RenewStep(id)) !in turns && OnCell(RetireStep(id)) !in turns
    ensures var sh' := TurnRun(sh, turns); TurnInv(sh') && Lends(sh'.store, id, q) && q !in sh'.store.sent
  {
    if turns != [] {
      var n := |turns| - 1;
      BorrowSafetyBetweenTurns(sh, turns[..n], id, q);
      TurnKeeps(TurnRun(sh, turns[..n]), turns[n]);
      TurnKeepsLoan(TurnRun(sh, turns[..n]), turns[n], id, q);
    }
    var r := TurnRun(sh, turns).store;
    BalanceReading(r.cells, r.sent, r.ready.Largest(), q);
    assert Holds(r.cells[id], q);
  }

  // ---------------------------------------------------------------- calls end, and undisturbed they are one step

  /** How many turns the running call can still take. */
  function TurnsLeft(sh: Shared): nat {
    match sh.phase
    case Idle => 0
    case Arranging => |sh.store.pending| + 1
    case Retiring(_) => |sh.store.pending| + 2 * |sh.store.ready.items| + 2
  }

  /** Every turn of a call brings it closer to its end, and no path puts that off. */
  lemma CallsEnd(sh: Shared, t: Turn)
    requires TurnInv(sh) && Possible(sh, t) && !t.Call?
    ensures t.Continue? ==> TurnsLeft(TurnNext(sh, t)) < TurnsLeft(sh)
    ensures t.OnCell? ==> TurnsLeft(TurnNext(sh, t)) == TurnsLeft(sh)
  {
    CoreIsLoose(sh.store);
  }

  /** The rest of the call, with no path in between; `CallsEnd` says that every turn counts. */
  ghost function Finish(sh: Shared): Remote
    decreases TurnsLeft(sh)
  {
    var sh' := TurnNext(sh, Continue);
    if TurnsLeft(sh') < TurnsLeft(sh) then Finish(sh') else sh.store
  }

  lemma FinishStep(sh: Shared)
    requires TurnInv(sh) && !sh.phase.Idle?
    ensures TurnInv(ContinueTurn(sh)) && Finish(sh) == Finish(ContinueTurn(sh))
  {
    TurnKeeps(sh, Continue);
    CallsEnd(sh, Continue);
  }

  lemma {:induction false} FinishArranging(r: Remote)
    requires TurnInv(Shared(r, Arranging))
    ensures Arrangeable(r) && Finish(Shared(r, Arranging)) == Arrange(r)
    decreases |r.pending|
  {
    FinishStep(Shared(r, Arranging));
    if CanArrange(r) { FinishArranging(ArrangeOnce(r)); }
  }

  lemma PopReadyRequeues(r: Remote, n: nat)
    requires IdsOk(r) && 0 < n <= |r.ready.items|
    ensures IdsOk(PopReady(r)) && Requeued(r, n) == Requeued(PopReady(r), n - 1)
  {
    var ids, id := r.ready.items[..n], r.ready.items[0];
    LiveOnlyCons(ids, r.cells);
    assert ids[1..] == PopReady(r).ready.items[..n - 1];
    ConcatAssociative(r.pending, if r.cells[id].retired then [] else [id], LiveOnly(ids[1..], r.cells));
  }

  lemma {:induction false} LiveOnlyCons(ids: seq<nat>, cells: seq<Cell>)
    requires ids != [] && forall i :: 0 <= i < |ids| ==> ids[i] < |cells|
    ensures LiveOnly(ids, cells) == (if cells[ids[0]].retired then [] else [ids[0]]) + LiveOnly(ids[1..], cells)
  {
    var front := ids[..|ids| - 1];
    if |ids| > 1 {
      LiveOnlyCons(front, cells);
      assert front[1..] == ids[1..][..|ids| - 2];
      var last := if cells[ids[|ids| - 1]].retired then [] else [ids[|ids| - 1]];
      ConcatAssociative(if cells[ids[0]].retired then [] else [ids[0]], LiveOnly(front[1..], cells), last);
    } else {
      assert front == [] && ids[1..] == [];
    }
  }

  lemma RetireAppliedStep(r: Remote, tomb: nat)
    requires IdsOk(r) && r.ready.items != [] && r.ready.offset + 1 < tomb
    ensures IdsOk(PopReady(r)) && RetireApplied(r, tomb) == RetireApplied(PopReady(r), tomb)
  {
    PopReadyRequeues(r, Min(r.ready.Largest(), tomb) - r.ready.offset);
  }

  /** Without ready cells nothing is requeued. */
  lemma RetireAppliedNone(r: Remote, tomb: nat)
    requires IdsOk(r) && r.ready.items == [] && r.ready.offset < tomb
    ensures RetireApplied(r, tomb) == RetireReady(r, tomb)
  {
    RequeuedNone(r);
  }

  lemma RetireReadyStep(r: Remote, tomb: nat)
    requires IdsOk(r) && r.ready.items != [] && r.ready.offset + 1 < tomb
    ensures IdsOk(PopReady(r)) && RetireReady(r, tomb) == RetireReady(PopReady(r), tomb)
  {
    RetireAppliedStep(r, tomb);
    if PopReady(r).ready.items == [] { RetireAppliedNone(PopReady(r), tomb); }
  }

  lemma {:induction false} FinishRetiring(r: Remote, tomb: nat)
    requires TurnInv(Shared(r, Retiring(tomb))) && r.ready.offset < tomb
    ensures TurnInv(Shared(RetireReady(r, tomb), Arranging))
    ensures Finish(Shared(r, Retiring(tomb))) == Finish(Shared(RetireReady(r, tomb), Arranging))
    decreases |r.ready.items|
  {
    FinishStep(Shared(r, Retiring(tomb)));
    if r.ready.items != [] {
      var r' := PopReady(r);
      var sh' := Shared(r', Retiring(tomb));
      if r.ready.offset + 1 < tomb {
        RetireReadyStep(r, tomb);
        FinishRetiring(r', tomb);
      } else {
        FinishStep(sh');
        PopReadyRequeues(r, 1);
        RequeuedNone(r');
        assert RetireReady(r, tomb) == r';
      }
    }
  }

  /** A call that no path disturbs has the effect of the one step of the specification. */
  lemma UndisturbedIsAtomic(r: Remote, step: Step)
    requires Inv(r) && Enabled(r, step) && !UsesCell(step)
    ensures TurnInv(Begin(r, step)) && Finish(Begin(r, step)) == Exec(r, step)
  {
    BeginKeeps(r, step);
    match step
    case ApplyStep => FinishArranging(WithNewCell(r));
    case NewCidStep(f) =>
      if Accepts(r, f) {
        var stowed, sh := Stow(r, f), Begin(r, step);
        if f.retirePriorTo <= stowed.ready.offset {
          FinishArranging(stowed);
        } else {
          FinishRetiring(sh.store, f.retirePriorTo);
          FinishArranging(RetireReady(sh.store, f.retirePriorTo));
        }
      }
    case ReviseStep(_) =>
  }
}
