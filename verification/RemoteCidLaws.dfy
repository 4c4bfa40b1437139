/**
 * What the store owes its callers: which frames it keeps and for how long, in which order it serves
 * waiting cells, and what a borrow reports over every run.
 */
module RemoteCidLaws {
  import opened Prelude
  import opened IndexDeques
  import opened RemoteCidSpec
  import opened RemoteCidProofs

  // ---------------------------------------------------------------- which frames are kept

  /** The slot after a frame for `f.sequence` was put there and everything below `f.retirePriorTo` dropped. */
  function Slot(r: Remote, f: NewCidFrame, k: nat): Option<Option<Stored>> {
    if k < Max(r.cids.offset, f.retirePriorTo) then None
    else if k == f.sequence then Some(Some(Stored(f.sequence, f.cid, f.token)))
    else if r.cids.Largest() <= k < f.sequence then Some(None)
    else r.cids.Get(k)
  }

  lemma RetirePriorToStore(r: Remote, tomb: nat, k: nat)
    requires Steppable(r) && tomb <= r.cids.Largest()
    ensures RetirePriorTo(r, tomb).cids.Get(k) == if k < Max(r.cids.offset, tomb) then None else r.cids.Get(k)
    ensures RetirePriorTo(r, tomb).cids.offset == Max(r.cids.offset, tomb)
  {
  }

  /**
   * A frame within the limit whose sequence is not below the store is kept, however far ahead it
   * is, and its token returned; one beyond the limit is an error and one below the store is
   * ignored, and both leave everything as it was.
   */
  lemma StoredIff(r: Remote, f: NewCidFrame, k: nat)
    requires Inv(r) && FrameOk(f)
    ensures var r', result := RecvNewCid(r, f), RecvNewCidResult(r, f);
            if f.sequence - f.retirePriorTo > r.limit then
              r' == r && result == Failure(ConnectionIdLimit(f.sequence - f.retirePriorTo))
            else if f.sequence < r.cids.offset then r' == r && result == Success(None)
            else r'.cids.Get(k) == Slot(r, f, k) && result == Success(Some(f.token))
    ensures f.sequence - f.retirePriorTo <= r.limit && r.cids.offset <= f.sequence ==>
              && RecvNewCid(r, f).cids.Get(f.sequence) == Some(Some(Stored(f.sequence, f.cid, f.token)))
              && RecvNewCid(r, f).cids.offset == Max(r.cids.offset, f.retirePriorTo)
  {
    if f.sequence - f.retirePriorTo <= r.limit && r.cids.offset <= f.sequence {
      var stowed := Stow(r, f);
      StowPreserves(r, f);
      RetirePriorToPreserves(stowed, f.retirePriorTo);
      RetirePriorToStore(stowed, f.retirePriorTo, k);
      RetirePriorToStore(stowed, f.retirePriorTo, f.sequence);
      ArrangePreserves(RetirePriorTo(stowed, f.retirePriorTo));
    }
  }

  /** The sequence is in store, or the peer has asked for its retirement. */
  predicate Known(r: Remote, k: nat) { k < r.cids.offset || (r.cids.Contains(k) && r.cids.At(k).Some?) }

  /** A frame within the limit makes its sequence known. */
  lemma KeptIsKnown(r: Remote, f: NewCidFrame)
    requires Inv(r) && FrameOk(f) && f.sequence - f.retirePriorTo <= r.limit
    ensures Known(RecvNewCid(r, f), f.sequence)
  {
    StoredIff(r, f, f.sequence);
    var r' := RecvNewCid(r, f);
    assert r'.cids.Get(f.sequence).Some? ==> r'.cids.Get(f.sequence).value == r'.cids.At(f.sequence);
  }

  /** A CID once in store stays there until a retire-prior-to drops it. */
  lemma KnownStays(r: Remote, s: Step, k: nat)
    requires Inv(r) && Known(r, k)
    ensures Known(Next(r, s), k)
  {
    if Enabled(r, s) {
      match s
      case ApplyStep =>
        WithNewCellPreserves(r);
        ArrangePreserves(WithNewCell(r));
      case NewCidStep(f) =>
        StoredIff(r, f, k);
        assert r.cids.Contains(k) ==> r.cids.Get(k) == Some(r.cids.At(k));
        assert Next(r, s).cids.Get(k).Some? ==> Next(r, s).cids.Get(k).value == Next(r, s).cids.At(k);
      case ReviseStep(dcid) =>
        assert Next(r, s).cids.Get(k)
            == if k == 0 then Some(Some(Stored(0, dcid, []))) else r.cids.Get(k);
      case _ =>
    }
  }

  // ---------------------------------------------------------------- in which order cells are served

  lemma {:induction false} LiveOnlyFirst(ids: seq<nat>, cells: seq<Cell>)
    requires ids != [] && forall i :: 0 <= i < |ids| ==> ids[i] < |cells|
    ensures LiveOnly(ids, cells) == (if cells[ids[0]].retired then [] else [ids[0]]) + LiveOnly(ids[1..], cells)
  {
    if |ids| > 1 {
      LiveOnlyFirst(ids[..|ids| - 1], cells);
      assert ids[..|ids| - 1][1..] == ids[1..][..|ids| - 2];
    } else {
      assert ids[1..] == [] && ids[..0] == [];
    }
  }

  lemma {:induction false} LiveOnlySame(ids: seq<nat>, cells: seq<Cell>, cells': seq<Cell>)
    requires |cells| == |cells'| && forall i :: 0 <= i < |ids| ==> ids[i] < |cells|
    requires forall id :: 0 <= id < |cells| ==> cells[id].retired == cells'[id].retired
    ensures LiveOnly(ids, cells) == LiveOnly(ids, cells')
  {
    if ids != [] { LiveOnlySame(ids[..|ids| - 1], cells, cells'); }
  }

  lemma ServedOnce(r: Remote, m: nat)
    requires Arrangeable(r) && CanArrange(r) && m < |r.pending|
    ensures var r', id := ArrangeOnce(r), r.pending[0];
            && r'.pending == r.pending[1..] && IdsOk(r')
            && LiveOnly(r.pending[..m + 1], r.cells)
               == (if r.cells[id].retired then [] else [id]) + LiveOnly(r'.pending[..m], r'.cells)
  {
    var r' := ArrangeOnce(r);
    assert r.pending[..m + 1][1..] == r'.pending[..m];
    LiveOnlyFirst(r.pending[..m + 1], r.cells);
    LiveOnlySame(r'.pending[..m], r.cells, r'.cells);
  }

  /** Waiting cells are served first come, first served: the first `n` leave the queue, the live ones get a CID each. */
  lemma {:induction false} ServedInOrder(r: Remote) returns (n: nat)
    requires Arrangeable(r)
    ensures n <= |r.pending| && Arrange(r).pending == r.pending[n..]
    ensures Arrange(r).ready.offset == r.ready.offset
    ensures Arrange(r).ready.items == r.ready.items + LiveOnly(r.pending[..n], r.cells)
    ensures Arrange(r).cursor == r.cursor + |LiveOnly(r.pending[..n], r.cells)|
    decreases |r.pending|
  {
    if CanArrange(r) {
      var r', id := ArrangeOnce(r), r.pending[0];
      var m := ServedInOrder(r');
      n := m + 1;
      ServedOnce(r, m);
      ConcatAssociative(r.ready.items, if r.cells[id].retired then [] else [id], LiveOnly(r'.pending[..m], r'.cells));
      assert r'.ready.items == r.ready.items + if r.cells[id].retired then [] else [id];
    } else {
      n := 0;
      assert r.pending[..0] == [];
    }
  }

  /** Arranging retires no cell and empties none. */
  lemma {:induction false} ArrangeKeepsCell(r: Remote, id: nat)
    requires Arrangeable(r) && id < |r.cells|
    ensures |Arrange(r).cells| == |r.cells| && Arrange(r).cells[id].retired == r.cells[id].retired
    ensures r.cells[id].held != [] ==> Arrange(r).cells[id].held != []
    decreases |r.pending|
  {
    if CanArrange(r) { ArrangeKeepsCell(ArrangeOnce(r), id); }
  }

  /** A new cell waits behind all others. */
  lemma ApplyWaitsItsTurn(r: Remote) returns (n: nat)
    requires Inv(r)
    ensures var queue, cells := r.pending + [|r.cells|], r.cells + [Cell([], false, false)];
            && n <= |queue| && Apply(r).pending == queue[n..] && |Apply(r).cells| == |cells|
            && (forall i :: 0 <= i < |queue| ==> queue[i] < |cells|)
            && Apply(r).ready.items == r.ready.items + LiveOnly(queue[..n], cells)
  {
    n := ServedInOrder(WithNewCell(r));
    ArrangeKeepsCell(WithNewCell(r), |r.cells|);
  }

  /** The cells whose sequences are retired queue up behind those that wait already, in the order of their sequences. */
  lemma RequeuedInOrder(r: Remote, tomb: nat)
    requires Steppable(r) && r.cids.offset <= tomb <= r.cids.Largest()
    ensures var n := Min(tomb, r.cursor) - r.cids.offset;
            RetirePriorTo(r, tomb).pending == r.pending + LiveOnly(r.ready.items[..n], r.cells)
  {
    if tomb == r.cids.offset || r.ready.items == [] { assert r.ready.items[..0] == []; }
  }

  /** The first CID is replaced in the store and, if its cell is assigned, in the cell; nothing else changes. */
  lemma ReviseReplaces(r: Remote, dcid: ConnectionId, k: nat, id: nat)
    requires Inv(r) && CanRevise(r) && id < |r.cells|
    ensures var r' := Revise(r, dcid);
            && r'.cids.Get(k) == (if k == 0 then Some(Some(Stored(0, dcid, []))) else r.cids.Get(k))
            && r'.cells[id].using == r.cells[id].using && r'.cells[id].retired == r.cells[id].retired
            && (r.ready.Contains(0) && r.ready.At(0) == id ==> BorrowResult(r'.cells[id]) == Lent(dcid))
            && (!(r.ready.Contains(0) && r.ready.At(0) == id) ==> r'.cells[id] == r.cells[id])
            && r' == r.(cids := r'.cids, cells := r'.cells)
  {
  }

  // ---------------------------------------------------------------- what a borrow reports

  /** The run retired the cell. */
  ghost predicate RetiredIn(r: Remote, steps: seq<Step>, id: nat) {
    steps != [] &&
    var before, last := steps[..|steps| - 1], steps[|steps| - 1];
    RetiredIn(r, before, id) || (last == RetireStep(id) && id < |Run(r, before).cells|)
  }

  lemma RecvKeepsCell(r: Remote, f: NewCidFrame, id: nat)
    requires Steppable(r) && FrameOk(f) && id < |r.cells|
    ensures var r' := RecvNewCid(r, f);
            && |r'.cells| == |r.cells| && r'.cells[id].retired == r.cells[id].retired
            && (r.cells[id].held != [] ==> r'.cells[id].held != [])
  {
    if Accepts(r, f) { ArrangeKeepsCell(RetirePriorTo(Stow(r, f), f.retirePriorTo), id); }
  }

  /** One call retires a cell only if it is that cell's retirement, and only then takes its CID away. */
  lemma NextKeepsCell(r: Remote, s: Step, id: nat)
    requires Inv(r) && id < |r.cells|
    ensures id < |Next(r, s).cells|
    ensures Next(r, s).cells[id].retired <==> r.cells[id].retired || s == RetireStep(id)
    ensures s != RetireStep(id) && r.cells[id].held != [] ==> Next(r, s).cells[id].held != []
  {
    if Enabled(r, s) {
      match s
      case ApplyStep => ArrangeKeepsCell(WithNewCell(r), id);
      case NewCidStep(f) => RecvKeepsCell(r, f, id);
      case _ =>
    }
  }

  /** A new cell starts live. */
  lemma NewCellIsLive(r: Remote, s: Step, id: nat)
    requires Inv(r) && |r.cells| <= id < |Next(r, s).cells|
    ensures !Next(r, s).cells[id].retired
  {
    match s
    case ApplyStep => ArrangeKeepsCell(WithNewCell(r), |r.cells|);
    case NewCidStep(f) =>
      if Enabled(r, s) && |r.cells| > 0 { RecvKeepsCell(r, f, 0); }
    case _ =>
  }

  lemma {:induction false} NeverRetiredUnborn(r: Remote, steps: seq<Step>, id: nat)
    requires Inv(r)
    ensures Inv(Run(r, steps))
    ensures RetiredIn(r, steps, id) ==> id < |Run(r, steps).cells|
  {
    if steps != [] {
      var before, last := steps[..|steps| - 1], steps[|steps| - 1];
      NeverRetiredUnborn(r, before, id);
      NextPreserves(Run(r, before), last);
      if id < |Run(r, before).cells| { NextKeepsCell(Run(r, before), last, id); }
    }
  }

  lemma {:induction false} RetiredOverRun(dcid: ConnectionId, limit: nat, steps: seq<Step>, id: nat)
    requires id < |Run(New(dcid, limit), steps).cells|
    ensures Run(New(dcid, limit), steps).cells[id].retired <==> RetiredIn(New(dcid, limit), steps, id)
  {
    var r0 := New(dcid, limit);
    if steps != [] {
      var before, last := steps[..|steps| - 1], steps[|steps| - 1];
      var r := Run(r0, before);
      ReachableInv(dcid, limit, before);
      if id < |r.cells| {
        RetiredOverRun(dcid, limit, before, id);
        NextKeepsCell(r, last, id);
      } else {
        NewSatisfiesInv(dcid, limit);
        NeverRetiredUnborn(r0, before, id);
        NewCellIsLive(r, last, id);
      }
    }
  }

  /** A live cell without a CID is queued. */
  lemma UnassignedWaits(r: Remote, id: nat)
    requires Inv(r) && id < |r.cells| && !r.cells[id].retired && r.cells[id].held == []
    ensures id in r.pending && NextCid(r).None?
  {
    forall i | 0 <= i < |r.ready.items| ensures r.ready.items[i] != id {
      assert r.ready.At(r.ready.offset + i) == r.ready.items[i];
    }
  }

  /**
   * Over every run: a borrow reports the end exactly if the cell was retired; it has to wait only
   * while the cell is queued and the next CID is not in store; otherwise it lends the CID the cell
   * was given last. A borrow that lends nothing changes nothing.
   */
  lemma BorrowOverRun(dcid: ConnectionId, limit: nat, steps: seq<Step>, id: nat)
    requires id < |Run(New(dcid, limit), steps).cells|
    ensures var r := Run(New(dcid, limit), steps); var b := BorrowResult(r.cells[id]);
            && (b == Gone <==> RetiredIn(New(dcid, limit), steps, id))
            && (b == NotReady ==> id in r.pending && NextCid(r).None?)
            && (b.Lent? ==> r.cells[id].held != [] && b.cid == r.cells[id].held[0].cid)
            && (!b.Lent? ==> Borrow(r, id) == r)
            && (b.Lent? ==> Borrow(r, id) == r.(cells := r.cells[id := r.cells[id].(using := true)]))
  {
    var r := Run(New(dcid, limit), steps);
    ReachableInv(dcid, limit, steps);
    RetiredOverRun(dcid, limit, steps, id);
    if BorrowResult(r.cells[id]) == NotReady { UnassignedWaits(r, id); }
  }

  /** A cell that lends keeps lending until it is retired. */
  lemma {:induction false} LendsUntilRetired(r: Remote, steps: seq<Step>, id: nat)
    requires Inv(r) && id < |r.cells| && BorrowResult(r.cells[id]).Lent? && RetireStep(id) !in steps
    ensures id < |Run(r, steps).cells| && BorrowResult(Run(r, steps).cells[id]).Lent? && Inv(Run(r, steps))
  {
    if steps != [] {
      var before, last := steps[..|steps| - 1], steps[|steps| - 1];
      LendsUntilRetired(r, before, id);
      NextPreserves(Run(r, before), last);
      NextKeepsCell(Run(r, before), last, id);
    }
  }

  // ---------------------------------------------------------------- in which order sequences are retired

  /** The cell lists its sequences newest first. */
  ghost predicate NewestFirst(c: Cell) {
    forall i, j :: 0 <= i < j < |c.held| ==> c.held[j].sequence < c.held[i].sequence
  }

  ghost predicate AllNewestFirst(r: Remote) { forall id :: 0 <= id < |r.cells| ==> NewestFirst(r.cells[id]) }

  /** A held sequence has been handed out. */
  lemma HeldBelowCursor(r: Remote, id: nat, i: nat)
    requires Core(r) && id < |r.cells| && i < |r.cells[id].held|
    ensures r.cells[id].held[i].sequence < r.cursor
  {
    LedgerReading(r, r.cells[id].held[i].sequence);
    assert Sequences(r.cells[id].held)[i] == r.cells[id].held[i].sequence;
    assert Holds(r.cells[id], r.cells[id].held[i].sequence);
  }

  lemma {:induction false} ArrangeNewestFirst(r: Remote)
    requires Core(r) && AllNewestFirst(r)
    ensures AllNewestFirst(Arrange(r))
    decreases |r.pending|
  {
    if CanArrange(r) {
      var id := r.pending[0];
      forall i | 0 <= i < |r.cells[id].held| ensures r.cells[id].held[i].sequence < r.cursor {
        HeldBelowCursor(r, id, i);
      }
      ArrangeOncePreserves(r);
      ArrangeNewestFirst(ArrangeOnce(r));
    }
  }

  lemma RecvNewestFirst(r: Remote, f: NewCidFrame)
    requires Inv(r) && AllNewestFirst(r) && FrameOk(f)
    ensures AllNewestFirst(RecvNewCid(r, f))
  {
    if Accepts(r, f) {
      StowPreserves(r, f);
      RetirePriorToPreserves(Stow(r, f), f.retirePriorTo);
      ArrangeNewestFirst(RetirePriorTo(Stow(r, f), f.retirePriorTo));
    }
  }

  lemma NextNewestFirst(r: Remote, s: Step)
    requires Inv(r) && AllNewestFirst(r)
    ensures AllNewestFirst(Next(r, s))
  {
    if Enabled(r, s) {
      match s
      case ApplyStep =>
        WithNewCellPreserves(r);
        ArrangeNewestFirst(WithNewCell(r));
      case NewCidStep(f) => RecvNewestFirst(r, f);
      case _ => assert |Next(r, s).cells| == |r.cells|;
    }
  }

  lemma {:induction false} RunNewestFirst(dcid: ConnectionId, limit: nat, steps: seq<Step>)
    ensures AllNewestFirst(Run(New(dcid, limit), steps))
  {
    if steps != [] {
      RunNewestFirst(dcid, limit, steps[..|steps| - 1]);
      ReachableInv(dcid, limit, steps[..|steps| - 1]);
      NextNewestFirst(Run(New(dcid, limit), steps[..|steps| - 1]), steps[|steps| - 1]);
    }
  }

  lemma {:induction false} ReversedAt(s: seq<nat>, k: nat)
    requires k < |s|
    ensures |Reversed(s)| == |s| && Reversed(s)[k] == s[|s| - 1 - k]
  {
    if |s| > 1 { ReversedAt(s[1..], if k < |s| - 1 then k else 0); }
  }

  /** Over every run, dropping a borrow retires all but the newest of the cell's sequences, oldest first. */
  lemma DropsOldestFirst(dcid: ConnectionId, limit: nat, steps: seq<Step>, id: nat)
    requires id < |Run(New(dcid, limit), steps).cells|
    ensures var r := Run(New(dcid, limit), steps);
            var sends, held := Renew(r, id).sent[|r.sent|..], r.cells[id].held;
            && r.sent <= Renew(r, id).sent && |sends| == (if held == [] then 0 else |held| - 1)
            && (forall i :: 0 <= i < |sends| ==> sends[i] == held[|held| - 1 - i].sequence)
            && (forall i, j :: 0 <= i < j < |sends| ==> sends[i] < sends[j] < held[0].sequence)
  {
    var r := Run(New(dcid, limit), steps);
    var tail := Sequences(Tail(r.cells[id].held));
    RunNewestFirst(dcid, limit, steps);
    assert NewestFirst(r.cells[id]);
    assert Renew(r, id).sent[|r.sent|..] == Reversed(tail);
    if tail != [] { ReversedAt(tail, 0); }
    forall i | 0 <= i < |tail| ensures Reversed(tail)[i] == tail[|tail| - 1 - i] { ReversedAt(tail, i); }
  }
}
