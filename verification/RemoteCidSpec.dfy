/**
 * Connection IDs issued by the peer (`qbase/src/cid/remote_cid.rs`), on values.
 * A cell is named by its position in `cells`; `sent` is every sequence number for
 * which a RETIRE_CONNECTION_ID frame has been handed to the transport, in order.
 */
module RemoteCidSpec {
  import opened Prelude
  import opened IndexDeques

  datatype Stored = Stored(sequence: nat, cid: ConnectionId, token: ResetToken)

  datatype Held = Held(sequence: nat, cid: ConnectionId)

  datatype Cell = Cell(held: seq<Held>, retired: bool, using: bool)

  datatype Remote = Remote(
    cids: IndexDeque<Option<Stored>>,
    ready: IndexDeque<nat>,
    pending: seq<nat>,
    limit: nat,
    cursor: nat,
    cells: seq<Cell>,
    sent: seq<nat>)

  datatype CidError = ConnectionIdLimit(activeLen: nat)

  // ---------------------------------------------------------------- cells

  function Sequences(hs: seq<Held>): (r: seq<nat>)
    ensures |r| == |hs|
    ensures forall i :: 0 <= i < |hs| ==> r[i] == hs[i].sequence
  {
    seq(|hs|, i requires 0 <= i < |hs| => hs[i].sequence)
  }

  /** The cell after a new CID was put at its head. */
  function Assigned(c: Cell, h: Held): Cell {
    if c.using then c.(held := [h] + c.held) else c.(held := [h])
  }

  /** What `Assigned` sends: everything behind the new head, from the back, unless the cell is borrowed. */
  function AssignSends(c: Cell): seq<nat> {
    if c.using then [] else Reversed(Sequences(c.held))
  }

  function Tail(hs: seq<Held>): seq<Held> { if hs == [] then [] else hs[1..] }

  function Renewed(c: Cell): Cell {
    c.(using := false, held := if c.held == [] then [] else c.held[..1])
  }

  function RenewSends(c: Cell): seq<nat> { Reversed(Sequences(Tail(c.held))) }

  function RetiredCell(c: Cell): Cell {
    if c.retired then c else c.(retired := true, held := [])
  }

  function RetireSends(c: Cell): seq<nat> {
    if c.retired then [] else Sequences(c.held)
  }

  datatype Borrowed = Gone | NotReady | Lent(cid: ConnectionId)

  function BorrowResult(c: Cell): Borrowed {
    if c.retired then Gone
    else if c.held == [] then NotReady
    else Lent(c.held[0].cid)
  }

  function BorrowedCell(c: Cell): Cell {
    if BorrowResult(c).Lent? then c.(using := true) else c
  }

  // ---------------------------------------------------------------- the store

  function New(initialDcid: ConnectionId, limit: nat): Remote {
    Remote(IndexDeque(0, [Some(Stored(0, initialDcid, []))]), IndexDeque(0, []), [], limit, 0, [], [])
  }

  /** Every queued index names a cell. */
  predicate IdsOk(r: Remote) {
    && (forall i :: 0 <= i < |r.pending| ==> r.pending[i] < |r.cells|)
    && (forall i :: 0 <= i < |r.ready.items| ==> r.ready.items[i] < |r.cells|)
  }

  /** The stored CID at the cursor, if it has arrived. */
  function NextCid(r: Remote): Option<Stored> {
    match r.cids.Get(r.cursor)
    case Some(slot) => slot
    case None => None
  }

  /** The arranging loop has something to do: a retired cell to drop, or a CID to hand out. */
  predicate CanArrange(r: Remote)
    requires IdsOk(r)
  {
    r.pending != [] && (r.cells[r.pending[0]].retired || NextCid(r).Some?)
  }

  /** Queued cells exist and the ready queue can grow as far as the stored CIDs reach. */
  predicate Arrangeable(r: Remote) {
    IdsOk(r) && r.ready.Largest() <= r.cursor && r.cids.Largest() <= VARINT_MAX + 1
  }

  /** One turn of the arranging loop. */
  function ArrangeOnce(r: Remote): Remote
    requires Arrangeable(r) && CanArrange(r)
  {
    var id := r.pending[0];
    if r.cells[id].retired then
      r.(pending := r.pending[1..])
    else
      var s := NextCid(r).value;
      r.(pending := r.pending[1..],
         ready := r.ready.PushBack(id),
         cursor := r.cursor + 1,
         cells := r.cells[id := Assigned(r.cells[id], Held(s.sequence, s.cid))],
         sent := r.sent + AssignSends(r.cells[id]))
  }

  function Arrange(r: Remote): (a: Remote)
    requires Arrangeable(r)
    ensures Arrangeable(a) && !CanArrange(a)
    decreases |r.pending|
  {
    if CanArrange(r) then Arrange(ArrangeOnce(r)) else r
  }

  /** The identifiers in `ids` whose cells are still live, in order. */
  function LiveOnly(ids: seq<nat>, cells: seq<Cell>): (r: seq<nat>)
    requires forall i :: 0 <= i < |ids| ==> ids[i] < |cells|
    ensures forall i :: 0 <= i < |r| ==> r[i] < |cells|
  {
    if ids == [] then []
    else
      var rest := LiveOnly(ids[..|ids| - 1], cells);
      var last := ids[|ids| - 1];
      if cells[last].retired then rest else rest + [last]
  }

  lemma {:induction false} LiveOnlyMembers(ids: seq<nat>, cells: seq<Cell>)
    requires forall i :: 0 <= i < |ids| ==> ids[i] < |cells|
    ensures forall x :: x in LiveOnly(ids, cells) <==> x in ids && !cells[x].retired
  {
    if ids != [] {
      LiveOnlyMembers(ids[..|ids| - 1], cells);
    }
  }

  lemma LiveOnlyStep(ids: seq<nat>, cells: seq<Cell>, i: nat)
    requires i < |ids| && forall j :: 0 <= j < |ids| ==> ids[j] < |cells|
    ensures LiveOnly(ids[..i + 1], cells)
         == LiveOnly(ids[..i], cells) + if cells[ids[i]].retired then [] else [ids[i]]
  {
    assert ids[..i + 1][..i] == ids[..i];
  }

  /** The first `n` ready cells taken off the queue; the live ones wait. */
  function Requeued(r: Remote, n: nat): Remote
    requires IdsOk(r) && n <= |r.ready.items|
  {
    r.(ready := r.ready.Advance(n), pending := r.pending + LiveOnly(r.ready.items[..n], r.cells))
  }

  lemma RequeuedNone(r: Remote)
    requires IdsOk(r)
    ensures Requeued(r, 0) == r
  {
    assert r.ready.items[..0] == [] && r.pending + [] == r.pending && r.ready.items[0..] == r.ready.items;
  }

  lemma RequeuedStep(r: Remote, n: nat)
    requires IdsOk(r) && n < |r.ready.items|
    ensures var q, id := Requeued(r, n), r.ready.items[n];
            && q.ready.items != [] && q.ready.items[0] == id
            && Requeued(r, n + 1) == q.(ready := q.ready.PopFront(),
                                        pending := q.pending + if r.cells[id].retired then [] else [id])
  {
    LiveOnlyStep(r.ready.items, r.cells, n);
    ConcatAssociative(r.pending, LiveOnly(r.ready.items[..n], r.cells),
                      if r.cells[r.ready.items[n]].retired then [] else [r.ready.items[n]]);
  }

  function Range(lo: nat, hi: nat): (r: seq<nat>)
    requires lo <= hi
    ensures |r| == hi - lo && forall i :: 0 <= i < |r| ==> r[i] == lo + i
  {
    seq(hi - lo, i requires 0 <= i < hi - lo => lo + i)
  }

  /** What every call relies on before it starts. */
  predicate Steppable(r: Remote) {
    && IdsOk(r)
    && r.ready.offset == r.cids.offset
    && r.ready.Largest() == r.cursor <= r.cids.Largest() <= VARINT_MAX + 1
  }

  /** Sequences `from` up to `tomb`, which no cell was given, are retired and the queue goes on at `tomb`. */
  function Skipped(r: Remote, from: nat, tomb: nat): Remote
    requires from <= tomb
  {
    r.(ready := r.ready.ResetOffset(tomb), sent := r.sent + Range(from, tomb))
  }

  /** The ready cells below `tomb` are requeued; what lies between the last of them and `tomb` is skipped. */
  function RetireApplied(r: Remote, tomb: nat): Remote
    requires IdsOk(r) && r.ready.offset < tomb
  {
    var applied := r.ready.Largest();
    var requeued := Requeued(r, Min(applied, tomb) - r.ready.offset);
    if applied < tomb then Skipped(requeued, applied, tomb) else requeued
  }

  /**
   * Takes the ready cells below `tomb` off the queue; the live ones wait for another CID.
   * Sequences that no cell was given are retired at once.
   */
  function RetireReady(r: Remote, tomb: nat): Remote
    requires IdsOk(r) && r.ready.offset < tomb
  {
    if r.ready.items == [] then Skipped(r, r.ready.offset, tomb) else RetireApplied(r, tomb)
  }

  /** Drops the CIDs below `tomb`; cells that used one queue up for another. */
  function RetirePriorTo(r: Remote, tomb: nat): (r': Remote)
    requires Steppable(r) && tomb <= r.cids.Largest()
    ensures Steppable(r') && r'.ready.offset == Max(r.ready.offset, tomb)
  {
    if tomb <= r.ready.offset then r
    else
      RetireReady(r.(cids := r.cids.DrainTo(tomb), cursor := Max(r.cursor, tomb)), tomb)
  }

  /** How many CIDs the frame asks to keep active, as the code measures it. */
  function ActiveLen(f: NewCidFrame): nat {
    if f.sequence < f.retirePriorTo then 0 else f.sequence - f.retirePriorTo
  }

  predicate Accepts(r: Remote, f: NewCidFrame) {
    ActiveLen(f) <= r.limit && r.cids.offset <= f.sequence
  }

  /** The frame parser rejects a frame outside these bounds. */
  predicate FrameOk(f: NewCidFrame) { f.retirePriorTo <= f.sequence <= VARINT_MAX }

  function Stow(r: Remote, f: NewCidFrame): Remote
    requires r.cids.offset <= f.sequence <= VARINT_MAX
  {
    r.(cids := r.cids.Insert(f.sequence, Some(Stored(f.sequence, f.cid, f.token)), None))
  }

  lemma StowSteppable(r: Remote, f: NewCidFrame)
    requires Steppable(r) && FrameOk(f) && r.cids.offset <= f.sequence
    ensures Steppable(Stow(r, f)) && f.sequence < Stow(r, f).cids.Largest()
  {
  }

  function RecvNewCid(r: Remote, f: NewCidFrame): Remote
    requires Steppable(r) && FrameOk(f)
  {
    if Accepts(r, f) then Arrange(RetirePriorTo(Stow(r, f), f.retirePriorTo)) else r
  }

  function RecvNewCidResult(r: Remote, f: NewCidFrame): Result<Option<ResetToken>, CidError> {
    if ActiveLen(f) > r.limit then Failure(ConnectionIdLimit(ActiveLen(f)))
    else if f.sequence < r.cids.offset then Success(None)
    else Success(Some(f.token))
  }

  function Apply(r: Remote): Remote
    requires Steppable(r)
  {
    Arrange(r.(cells := r.cells + [Cell([], false, false)], pending := r.pending + [|r.cells|]))
  }

  function Borrow(r: Remote, id: nat): Remote
    requires id < |r.cells|
  {
    r.(cells := r.cells[id := BorrowedCell(r.cells[id])])
  }

  function Renew(r: Remote, id: nat): Remote
    requires id < |r.cells|
  {
    r.(cells := r.cells[id := Renewed(r.cells[id])], sent := r.sent + RenewSends(r.cells[id]))
  }

  function Retire(r: Remote, id: nat): Remote
    requires id < |r.cells|
  {
    r.(cells := r.cells[id := RetiredCell(r.cells[id])], sent := r.sent + RetireSends(r.cells[id]))
  }

  /** Slot 0 must still be stored, and the cell using it must be live: the code unwraps and asserts both. */
  predicate CanRevise(r: Remote) {
    && r.cids.Contains(0)
    && (r.ready.Contains(0) ==>
          && r.ready.At(0) < |r.cells|
          && !r.cells[r.ready.At(0)].retired
          && r.cells[r.ready.At(0)].held != [])
  }

  function RevisedCell(c: Cell, dcid: ConnectionId): Cell
    requires c.held != []
  {
    c.(held := c.held[0 := c.held[0].(cid := dcid)])
  }

  function Revise(r: Remote, dcid: ConnectionId): Remote
    requires CanRevise(r)
  {
    var stowed := r.(cids := r.cids.Insert(0, Some(Stored(0, dcid, [])), None));
    if r.ready.Contains(0) then
      var id := r.ready.At(0);
      stowed.(cells := r.cells[id := RevisedCell(r.cells[id], dcid)])
    else stowed
  }

  // ---------------------------------------------------------------- runs

  datatype Step =
    | ApplyStep
    | NewCidStep(frame: NewCidFrame)
    | BorrowStep(id: nat)
    | RenewStep(id: nat)
    | RetireStep(id: nat)
    | ReviseStep(dcid: ConnectionId)

  /** What the callers and the frame parser guarantee before each call. */
  predicate Enabled(r: Remote, s: Step) {
    match s
    case ApplyStep => true
    case NewCidStep(f) => FrameOk(f)
    case BorrowStep(id) => id < |r.cells|
    case RenewStep(id) => id < |r.cells| && r.cells[id].using
    case RetireStep(id) => id < |r.cells|
    case ReviseStep(_) => CanRevise(r)
  }

  function Exec(r: Remote, s: Step): Remote
    requires Steppable(r) && Enabled(r, s)
  {
    match s
    case ApplyStep => Apply(r)
    case NewCidStep(f) => RecvNewCid(r, f)
    case BorrowStep(id) => Borrow(r, id)
    case RenewStep(id) => Renew(r, id)
    case RetireStep(id) => Retire(r, id)
    case ReviseStep(dcid) => Revise(r, dcid)
  }
}
