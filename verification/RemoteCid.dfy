/**
 * The mutable store of `qbase/src/cid/remote_cid.rs`. Paths and the store share cells, so each
 * method is stated over the whole store: its `View` moves by the step of `RemoteCidSpec`.
 */
module RemoteCid {
  import opened Prelude
  import opened IndexDeques
  import opened RemoteCidSpec
  import Proofs = RemoteCidProofs

  /** Where RETIRE_CONNECTION_ID frames go. */
  class RetiredCids {
    var sent: seq<nat>

    constructor ()
      ensures sent == []
    {
      sent := [];
    }

    method SendFrame(sequences: seq<nat>)
      modifies this
      ensures sent == old(sent) + sequences
    {
      sent := sent + sequences;
    }
  }

  class CidCell {
    const retiredCids: RetiredCids
    /** Its position among all cells the store has created. */
    ghost const id: nat
    var allocatedCids: seq<Held>
    var isRetired: bool
    var isUsing: bool

    constructor (retiredCids: RetiredCids, ghost id: nat)
      ensures this.retiredCids == retiredCids && this.id == id && View() == Cell([], false, false)
    {
      this.retiredCids := retiredCids;
      this.id := id;
      allocatedCids, isRetired, isUsing := [], false, false;
    }

    ghost function View(): Cell
      reads this
    {
      Cell(allocatedCids, isRetired, isUsing)
    }

    /** Pops from the back until one CID is left, retiring each. */
    method KeepHead()
      modifies this`allocatedCids, retiredCids
      ensures allocatedCids == old(if allocatedCids == [] then [] else allocatedCids[..1])
      ensures retiredCids.sent == old(retiredCids.sent) + Reversed(Sequences(Tail(old(allocatedCids))))
    {
      ghost var all := allocatedCids;
      while |allocatedCids| > 1
        invariant allocatedCids <= all && (all != [] ==> allocatedCids != [])
        invariant all != [] ==>
                    retiredCids.sent == old(retiredCids.sent) + Reversed(Sequences(all[|allocatedCids|..]))
        invariant all == [] ==> retiredCids.sent == old(retiredCids.sent)
      {
        var last := |allocatedCids| - 1;
        var back := allocatedCids[last];
        assert Sequences(all[last..])[1..] == Sequences(all[last + 1..]);
        allocatedCids := allocatedCids[..last];
        retiredCids.SendFrame([back.sequence]);
      }
    }

    method Assign(sequence: nat, cid: ConnectionId)
      requires !isRetired
      modifies this`allocatedCids, retiredCids
      ensures View() == Assigned(old(View()), Held(sequence, cid))
      ensures retiredCids.sent == old(retiredCids.sent) + AssignSends(old(View()))
    {
      allocatedCids := [Held(sequence, cid)] + allocatedCids;
      if !isUsing {
        KeepHead();
      }
    }

    method Revise(dcid: ConnectionId)
      requires !isRetired && allocatedCids != []
      modifies this`allocatedCids
      ensures View() == RevisedCell(old(View()), dcid)
    {
      allocatedCids := allocatedCids[0 := allocatedCids[0].(cid := dcid)];
    }

    method BorrowCid() returns (r: Borrowed)
      modifies this`isUsing
      ensures r == BorrowResult(old(View())) && View() == BorrowedCell(old(View()))
    {
      if isRetired {
        return Gone;
      }
      if allocatedCids == [] {
        r := NotReady;
      } else {
        isUsing := true;
        r := Lent(allocatedCids[0].cid);
      }
    }

    method Renew()
      requires isUsing
      modifies this`allocatedCids, this`isUsing, retiredCids
      ensures View() == Renewed(old(View()))
      ensures retiredCids.sent == old(retiredCids.sent) + RenewSends(old(View()))
    {
      isUsing := false;
      KeepHead();
    }

    method Retire()
      modifies this`allocatedCids, this`isRetired, retiredCids
      ensures View() == RetiredCell(old(View()))
      ensures retiredCids.sent == old(retiredCids.sent) + RetireSends(old(View()))
    {
      if !isRetired {
        isRetired := true;
        ghost var all := allocatedCids;
        ghost var n := 0;
        while allocatedCids != []
          invariant isRetired && n <= |all| && allocatedCids == all[n..]
          invariant retiredCids.sent == old(retiredCids.sent) + Sequences(all)[..n]
        {
          var front := allocatedCids[0];
          allocatedCids := allocatedCids[1..];
          retiredCids.SendFrame([front.sequence]);
          n := n + 1;
        }
      }
    }
  }

  class RemoteCids {
    var cidDeque: IndexDeque<Option<Stored>>
    var readyCells: IndexDeque<CidCell>
    var pendingCells: seq<CidCell>
    const activeCidLimit: nat
    var cursor: nat
    const retiredCids: RetiredCids
    /** Every cell ever created, whoever holds it now. */
    ghost var cells: seq<CidCell>

    /** The cell was created by this store. */
    ghost predicate Owns(cell: CidCell)
      reads this`cells
    {
      cell.id < |cells| && cells[cell.id] == cell
    }

    ghost predicate Valid()
      reads this
    {
      && (forall i :: 0 <= i < |cells| ==> cells[i].id == i && cells[i].retiredCids == retiredCids)
      && (forall i :: 0 <= i < |pendingCells| ==> Owns(pendingCells[i]))
      && (forall i :: 0 <= i < |readyCells.items| ==> Owns(readyCells.items[i]))
    }

    static ghost function Ids(cs: seq<CidCell>): (r: seq<nat>)
      ensures |r| == |cs| && forall i :: 0 <= i < |cs| ==> r[i] == cs[i].id
    {
      seq(|cs|, i requires 0 <= i < |cs| => cs[i].id)
    }

    static ghost function Views(cs: seq<CidCell>): (r: seq<Cell>)
      reads cs
      ensures |r| == |cs| && forall i :: 0 <= i < |cs| ==> r[i] == cs[i].View()
    {
      seq(|cs|, i requires 0 <= i < |cs| reads cs => cs[i].View())
    }

    ghost function View(): Remote
      reads this, cells, retiredCids
    {
      Remote(cidDeque, IndexDeque(readyCells.offset, Ids(readyCells.items)), Ids(pendingCells),
             activeCidLimit, cursor, Views(cells), retiredCids.sent)
    }

    /** A step the specification takes keeps the invariants. */
    lemma Keeps(step: Step)
      requires Enabled(View(), step)
      ensures Proofs.Inv(View()) ==> Steppable(View()) && Proofs.Inv(Exec(View(), step))
    {
      if Proofs.Inv(View()) { Proofs.NextPreserves(View(), step); }
    }

    constructor (initialDcid: ConnectionId, activeCidLimit: nat)
      ensures Valid() && cells == [] && fresh(retiredCids)
      ensures View() == RemoteCidSpec.New(initialDcid, activeCidLimit) && Proofs.Inv(View())
    {
      cidDeque := IndexDeque(0, [Some(Stored(0, initialDcid, []))]);
      readyCells := IndexDeque(0, []);
      pendingCells := [];
      this.activeCidLimit := activeCidLimit;
      cursor := 0;
      retiredCids := new RetiredCids();
      cells := [];
      new;
      Proofs.NewSatisfiesInv(initialDcid, activeCidLimit);
    }

    /** Hands the CID at the cursor to the first pending cell. */
    method AssignNext(stored: Stored)
      requires Valid() && Arrangeable(View()) && NextCid(View()) == Some(stored)
      requires pendingCells != [] && !pendingCells[0].isRetired
      modifies this`readyCells, this`pendingCells, this`cursor, cells, retiredCids
      ensures Valid() && View() == ArrangeOnce(old(View()))
    {
      var next := pendingCells[0];
      next.Assign(stored.sequence, stored.cid);
      pendingCells := pendingCells[1..];
      readyCells := readyCells.PushBack(next);
      cursor := cursor + 1;
      assert Views(cells) == ArrangeOnce(old(View())).cells;
    }

    /** Forgets a retired cell at the front of the pending queue. */
    method DropRetired()
      requires Valid() && Arrangeable(View())
      requires pendingCells != [] && pendingCells[0].isRetired
      modifies this`pendingCells
      ensures Valid() && View() == ArrangeOnce(old(View()))
    {
      pendingCells := pendingCells[1..];
    }

    method ArrangeIdleCid()
      requires Valid() && Arrangeable(View())
      modifies this`readyCells, this`pendingCells, this`cursor, cells, retiredCids
      ensures Valid() && View() == Arrange(old(View()))
    {
      while pendingCells != []
        invariant Valid() && Arrangeable(View()) && Arrange(View()) == Arrange(old(View()))
        decreases |pendingCells|
      {
        var slot := cidDeque.Get(cursor);
        if pendingCells[0].isRetired {
          DropRetired();
        } else if slot.Some? && slot.value.Some? {
          AssignNext(slot.value.value);
        } else {
          break;
        }
      }
    }

    /** Pops the first ready cell; if it is still live it waits for another CID. */
    method RequeueFront()
      requires Valid() && readyCells.items != []
      modifies this`readyCells, this`pendingCells
      ensures Valid() && readyCells == old(readyCells).PopFront()
      ensures var v, id := old(View()), old(readyCells.items[0].id);
              View() == v.(ready := v.ready.PopFront(),
                           pending := v.pending + if v.cells[id].retired then [] else [id])
    {
      var cell := readyCells.items[0];
      assert Owns(cell);
      readyCells := readyCells.PopFront();
      if !cell.isRetired {
        pendingCells := pendingCells + [cell];
      }
    }

    /** One more cell off the queue, seen from where the queue started. */
    method RequeueNext(ghost v: Remote, ghost i: nat)
      requires Valid() && IdsOk(v) && i < |v.ready.items| && View() == Requeued(v, i)
      modifies this`readyCells, this`pendingCells
      ensures Valid() && View() == Requeued(v, i + 1)
    {
      RequeuedStep(v, i);
      assert Ids(readyCells.items) == View().ready.items;
      RequeueFront();
    }

    /** Takes the first `n` cells off the ready queue. */
    method Requeue(n: nat)
      requires Valid() && IdsOk(View()) && n <= |readyCells.items|
      modifies this`readyCells, this`pendingCells
      ensures Valid() && View() == Requeued(old(View()), n)
    {
      ghost var v := View();
      RequeuedNone(v);
      for i := 0 to n
        invariant Valid() && View() == Requeued(v, i)
      {
        RequeueNext(v, i);
      }
    }

    /** Retires the sequences no cell was given and moves the ready queue past them. */
    method Skip(from: nat, tomb: nat)
      requires Valid() && from <= tomb
      modifies this`readyCells, retiredCids
      ensures Valid() && View() == Skipped(old(View()), from, tomb)
    {
      retiredCids.SendFrame(Range(from, tomb));
      readyCells := readyCells.ResetOffset(tomb);
    }

    /** The ready queue and its view start and end at the same indices. */
    lemma SameIndices()
      ensures View().ready.offset == readyCells.offset && View().ready.Largest() == readyCells.Largest()
      ensures View().ready.items == [] <==> readyCells.items == []
    {
    }

    method RetireApplied(tomb: nat)
      requires Valid() && IdsOk(View()) && readyCells.offset < tomb
      modifies this`readyCells, this`pendingCells, retiredCids
      ensures Valid() && View() == RemoteCidSpec.RetireApplied(old(View()), tomb)
    {
      SameIndices();
      var applied := readyCells.Largest();
      var needReassigned := Min(applied, tomb);
      Requeue(needReassigned - readyCells.offset);
      if applied < tomb {
        Skip(applied, tomb);
      }
    }

    method RetireReady(tomb: nat)
      requires Valid() && IdsOk(View()) && readyCells.offset < tomb
      modifies this`readyCells, this`pendingCells, retiredCids
      ensures Valid() && View() == RemoteCidSpec.RetireReady(old(View()), tomb)
    {
      SameIndices();
      if readyCells.items == [] {
        Skip(readyCells.offset, tomb);
      } else {
        RetireApplied(tomb);
      }
    }

    method RetirePriorTo(tomb: nat)
      requires Valid() && Steppable(View()) && tomb <= cidDeque.Largest()
      modifies this`cidDeque, this`readyCells, this`pendingCells, this`cursor, retiredCids
      ensures Valid() && View() == RemoteCidSpec.RetirePriorTo(old(View()), tomb)
    {
      if tomb <= readyCells.offset {
        return;
      }
      ghost var v := View();
      cidDeque := cidDeque.DrainTo(tomb);
      cursor := Max(cursor, tomb);
      assert View() == v.(cids := v.cids.DrainTo(tomb), cursor := Max(v.cursor, tomb));
      RetireReady(tomb);
    }

    method RecvNewCidFrame(frame: NewCidFrame) returns (r: Result<Option<ResetToken>, CidError>)
      requires Valid() && Steppable(View()) && FrameOk(frame)
      modifies this`cidDeque, this`readyCells, this`pendingCells, this`cursor, cells, retiredCids
      ensures Valid() && View() == RecvNewCid(old(View()), frame)
      ensures r == RecvNewCidResult(old(View()), frame)
      ensures old(Proofs.Inv(View())) ==> Proofs.Inv(View())
    {
      Keeps(NewCidStep(frame));
      var activeLen := ActiveLen(frame);
      if activeLen > activeCidLimit {
        return Failure(ConnectionIdLimit(activeLen));
      }
      if frame.sequence < cidDeque.offset {
        return Success(None);
      }
      StowSteppable(View(), frame);
      cidDeque := cidDeque.Insert(frame.sequence, Some(Stored(frame.sequence, frame.cid, frame.token)), None);
      assert View() == Stow(old(View()), frame);
      RetirePriorTo(frame.retirePriorTo);
      ArrangeIdleCid();
      r := Success(Some(frame.token));
    }

    method ApplyDcid() returns (cell: CidCell)
      requires Valid() && Steppable(View())
      modifies this`readyCells, this`pendingCells, this`cursor, this`cells, cells, retiredCids
      ensures Valid() && fresh(cell) && cells == old(cells) + [cell]
      ensures View() == Apply(old(View()))
      ensures old(Proofs.Inv(View())) ==> Proofs.Inv(View())
    {
      Keeps(ApplyStep);
      ghost var v := View();
      cell := new CidCell(retiredCids, |cells|);
      cells := cells + [cell];
      pendingCells := pendingCells + [cell];
      assert View() == v.(cells := v.cells + [Cell([], false, false)], pending := v.pending + [|v.cells|]);
      ArrangeIdleCid();
    }

    method ReviseInitialDcid(dcid: ConnectionId)
      requires Valid() && CanRevise(View())
      modifies this`cidDeque, cells
      ensures Valid() && View() == RemoteCidSpec.Revise(old(View()), dcid)
      ensures old(Proofs.Inv(View())) ==> Proofs.Inv(View())
    {
      Keeps(ReviseStep(dcid));
      cidDeque := cidDeque.Insert(0, Some(Stored(0, dcid, [])), None);
      if readyCells.Contains(0) {
        readyCells.At(0).Revise(dcid);
        assert View().cells == RemoteCidSpec.Revise(old(View()), dcid).cells;
      }
    }
  }

  // Calls a path makes on a cell it shares with the store.

  method BorrowCid(store: RemoteCids, cell: CidCell) returns (r: Borrowed)
    requires store.Valid() && store.Owns(cell)
    modifies cell`isUsing
    ensures store.Valid() && store.View() == Borrow(old(store.View()), cell.id)
    ensures r == BorrowResult(old(cell.View()))
    ensures old(Proofs.Inv(store.View())) ==> Proofs.Inv(store.View())
  {
    store.Keeps(BorrowStep(cell.id));
    r := cell.BorrowCid();
    assert store.View().cells == Borrow(old(store.View()), cell.id).cells;
  }

  method DropBorrowed(store: RemoteCids, cell: CidCell)
    requires store.Valid() && store.Owns(cell) && cell.isUsing
    modifies cell`allocatedCids, cell`isUsing, cell.retiredCids
    ensures store.Valid() && store.View() == Renew(old(store.View()), cell.id)
    ensures old(Proofs.Inv(store.View())) ==> Proofs.Inv(store.View())
  {
    store.Keeps(RenewStep(cell.id));
    cell.Renew();
    assert store.View().cells == Renew(old(store.View()), cell.id).cells;
  }

  method RetireCell(store: RemoteCids, cell: CidCell)
    requires store.Valid() && store.Owns(cell)
    modifies cell`allocatedCids, cell`isRetired, cell.retiredCids
    ensures store.Valid() && store.View() == Retire(old(store.View()), cell.id)
    ensures old(Proofs.Inv(store.View())) ==> Proofs.Inv(store.View())
  {
    store.Keeps(RetireStep(cell.id));
    cell.Retire();
    assert store.View().cells == Retire(old(store.View()), cell.id).cells;
  }
}
