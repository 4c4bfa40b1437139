/** What every run of the peer-issued connection IDs keeps. */
module RemoteCidProofs {
  import opened Prelude
  import opened IndexDeques
  import opened RemoteCidSpec

  // ---------------------------------------------------------------- invariants

  /** A stored CID carries its own index, and every index handed out is still stored, as is the first CID. */
  ghost predicate Slots(r: Remote) {
    && (r.cids.offset == 0 ==> r.cids.Contains(0) && r.cids.At(0).Some?)
    && (forall k: nat :: r.cids.Contains(k) && r.cids.At(k).Some? ==> r.cids.At(k).value.sequence == k)
    && (forall k: nat :: r.cids.Contains(k) && k < r.cursor ==> r.cids.At(k).Some?)
  }

  /** Each cell is queued at most once, and each live cell is queued. */
  ghost predicate Queues(r: Remote) {
    && IdsOk(r)
    && Distinct(r.pending + r.ready.items)
    && (forall id :: 0 <= id < |r.cells| && !r.cells[id].retired ==> id in r.pending || id in r.ready.items)
  }

  /** The live cell at ready index k has sequence k at its head. */
  ghost predicate Heads(r: Remote)
    requires IdsOk(r)
  {
    forall k: nat :: r.ready.Contains(k) && !r.cells[r.ready.At(k)].retired ==>
      && r.cells[r.ready.At(k)].held != []
      && r.cells[r.ready.At(k)].held[0].sequence == k
  }

  /** A retired cell holds nothing; a cell nobody borrows holds at most one sequence. */
  ghost predicate CellOk(c: Cell) {
    (c.retired ==> c.held == []) && (!c.using ==> |c.held| <= 1)
  }

  ghost predicate CellsOk(r: Remote) {
    forall id :: 0 <= id < |r.cells| ==> CellOk(r.cells[id])
  }

  ghost function Count(xs: seq<nat>, s: nat): nat { multiset(xs)[s] }

  /** How often sequence `s` is held, over all cells. */
  ghost function HeldCount(cells: seq<Cell>, s: nat): nat {
    if cells == [] then 0
    else HeldCount(cells[..|cells| - 1], s) + Count(Sequences(cells[|cells| - 1].held), s)
  }

  ghost predicate Balanced(cells: seq<Cell>, sent: seq<nat>, cursor: nat) {
    forall s: nat :: HeldCount(cells, s) + Count(sent, s) == if s < cursor then 1 else 0
  }

  /** Held and retired sequences together are exactly those below the cursor, each once. */
  ghost predicate Ledger(r: Remote) { Balanced(r.cells, r.sent, r.cursor) }

  ghost predicate Core(r: Remote) {
    Steppable(r) && Slots(r) && Queues(r) && Heads(r) && CellsOk(r) && Ledger(r)
  }

  /** No cell waits while the next CID is in store. */
  ghost predicate Eager(r: Remote)
    requires IdsOk(r)
  {
    r.pending == [] || NextCid(r).None?
  }

  ghost predicate Bounded(r: Remote) { |r.cids.items| <= r.limit + 1 }

  ghost predicate Inv(r: Remote) { Core(r) && Eager(r) && Bounded(r) }

  /** The live cell at ready index k uses the CID stored at index k. */
  ghost predicate CidAgreement(r: Remote)
    requires Core(r)
  {
    forall k: nat :: r.ready.Contains(k) && !r.cells[r.ready.At(k)].retired ==>
      r.cells[r.ready.At(k)].held[0].cid == r.cids.At(k).value.cid
  }

  // ---------------------------------------------------------------- the ledger's arithmetic

  lemma CountConcat(a: seq<nat>, b: seq<nat>, s: nat)
    ensures Count(a + b, s) == Count(a, s) + Count(b, s)
  {
  }

  lemma {:induction false} HeldCountUpdate(cells: seq<Cell>, id: nat, c: Cell, s: nat)
    requires id < |cells|
    ensures HeldCount(cells[id := c], s) + Count(Sequences(cells[id].held), s)
         == HeldCount(cells, s) + Count(Sequences(c.held), s)
  {
    var last := |cells| - 1;
    if id < last {
      HeldCountUpdate(cells[..last], id, c, s);
      assert cells[id := c][..last] == cells[..last][id := c];
    } else {
      assert cells[id := c][..last] == cells[..last];
    }
  }

  lemma {:induction false} CountRange(lo: nat, hi: nat, s: nat)
    requires lo <= hi
    ensures Count(Range(lo, hi), s) == if lo <= s < hi then 1 else 0
  {
    if lo < hi {
      CountRange(lo, hi - 1, s);
      assert Range(lo, hi) == Range(lo, hi - 1) + [hi - 1];
    }
  }

  lemma {:induction false} HeldHolder(cells: seq<Cell>, s: nat) returns (id: nat)
    requires HeldCount(cells, s) > 0
    ensures id < |cells| && Holds(cells[id], s)
  {
    var last := |cells| - 1;
    if Holds(cells[last], s) {
      id := last;
    } else {
      id := HeldHolder(cells[..last], s);
    }
  }

  lemma {:induction false} HeldOnce(cells: seq<Cell>, id: nat, s: nat)
    requires id < |cells| && Holds(cells[id], s)
    ensures HeldCount(cells, s) >= 1
  {
    var last := |cells| - 1;
    if id < last { HeldOnce(cells[..last], id, s); }
  }

  lemma {:induction false} HeldTwice(cells: seq<Cell>, a: nat, b: nat, s: nat)
    requires a < b < |cells| && Holds(cells[a], s) && Holds(cells[b], s)
    ensures HeldCount(cells, s) >= 2
  {
    var last := |cells| - 1;
    if b < last { HeldTwice(cells[..last], a, b, s); } else { HeldOnce(cells[..last], a, s); }
  }

  ghost predicate Holds(c: Cell, s: nat) { s in Sequences(c.held) }

  /** A balance up to `bound`, read per sequence. */
  lemma BalanceReading(cells: seq<Cell>, sent: seq<nat>, bound: nat, s: nat)
    requires Balanced(cells, sent, bound) && forall id :: 0 <= id < |cells| ==> CellOk(cells[id])
    ensures s < bound ==> (s in sent <==> !exists id :: 0 <= id < |cells| && Holds(cells[id], s))
    ensures s < bound && s in sent ==> multiset(sent)[s] == 1
    ensures s >= bound ==> s !in sent && forall id :: 0 <= id < |cells| ==> !Holds(cells[id], s)
    ensures forall id :: 0 <= id < |cells| && Holds(cells[id], s) ==> !cells[id].retired
    ensures forall a, b :: 0 <= a < b < |cells| ==> !(Holds(cells[a], s) && Holds(cells[b], s))
  {
    assert HeldCount(cells, s) + Count(sent, s) == if s < bound then 1 else 0;
    assert s in sent <==> Count(sent, s) > 0;
    if HeldCount(cells, s) > 0 {
      var id := HeldHolder(cells, s);
    }
    forall id | 0 <= id < |cells| && Holds(cells[id], s) ensures HeldCount(cells, s) >= 1 && !cells[id].retired {
      HeldOnce(cells, id, s);
      assert CellOk(cells[id]);
    }
    forall a, b | 0 <= a < b < |cells| ensures !(Holds(cells[a], s) && Holds(cells[b], s)) {
      if Holds(cells[a], s) && Holds(cells[b], s) { HeldTwice(cells, a, b, s); }
    }
  }

  /**
   * The retirement ledger, read per sequence: below the cursor a sequence is held by exactly one
   * cell, which is live, or has had exactly one RETIRE_CONNECTION_ID, never both;
   * at or above the cursor it is neither.
   */
  lemma LedgerReading(r: Remote, s: nat)
    requires Core(r)
    ensures s < r.cursor ==> (s in r.sent <==> !exists id :: 0 <= id < |r.cells| && Holds(r.cells[id], s))
    ensures s < r.cursor && s in r.sent ==> multiset(r.sent)[s] == 1
    ensures s >= r.cursor ==> s !in r.sent && forall id :: 0 <= id < |r.cells| ==> !Holds(r.cells[id], s)
    ensures forall id :: 0 <= id < |r.cells| && Holds(r.cells[id], s) ==> !r.cells[id].retired
    ensures forall a, b :: 0 <= a < b < |r.cells| ==> !(Holds(r.cells[a], s) && Holds(r.cells[b], s))
  {
    BalanceReading(r.cells, r.sent, r.cursor, s);
  }

  // ---------------------------------------------------------------- one cell changes

  /** Turning `c` into `c'` gives up or sends exactly what `c` held, plus the sequences in [lo, hi). */
  ghost predicate Exchange(c: Cell, c': Cell, sends: seq<nat>, lo: nat, hi: nat) {
    forall s: nat :: Count(Sequences(c'.held), s) + Count(sends, s)
                  == Count(Sequences(c.held), s) + if lo <= s < hi then 1 else 0
  }

  lemma LedgerUpdate(r: Remote, id: nat, c: Cell, sends: seq<nat>, cursor: nat)
    requires Ledger(r) && id < |r.cells| && r.cursor <= cursor
    requires Exchange(r.cells[id], c, sends, r.cursor, cursor)
    ensures Balanced(r.cells[id := c], r.sent + sends, cursor)
  {
    forall s: nat
      ensures HeldCount(r.cells[id := c], s) + Count(r.sent + sends, s) == if s < cursor then 1 else 0
    {
      HeldCountUpdate(r.cells, id, c, s);
      CountConcat(r.sent, sends, s);
      assert HeldCount(r.cells, s) + Count(r.sent, s) == if s < r.cursor then 1 else 0;
      assert Count(Sequences(c.held), s) + Count(sends, s)
          == Count(Sequences(r.cells[id].held), s) + if r.cursor <= s < cursor then 1 else 0;
    }
  }

  lemma SequencesConcat(a: seq<Held>, b: seq<Held>)
    ensures Sequences(a + b) == Sequences(a) + Sequences(b)
  {
  }

  lemma AssignExchange(c: Cell, h: Held)
    ensures Exchange(c, Assigned(c, h), AssignSends(c), h.sequence, h.sequence + 1)
  {
    ReversedMultiset(Sequences(c.held));
    SequencesConcat([h], c.held);
    assert Sequences([h]) == [h.sequence];
  }

  lemma RenewExchange(c: Cell, lo: nat)
    ensures Exchange(c, Renewed(c), RenewSends(c), lo, lo)
  {
    if c.held != [] {
      ReversedMultiset(Sequences(Tail(c.held)));
      SequencesConcat(c.held[..1], c.held[1..]);
      assert c.held == c.held[..1] + c.held[1..];
    }
  }

  // ---------------------------------------------------------------- arranging

  lemma ArrangeOnceLedger(r: Remote)
    requires Core(r) && CanArrange(r)
    ensures Ledger(ArrangeOnce(r))
  {
    var id := r.pending[0];
    if !r.cells[id].retired {
      var s := NextCid(r).value;
      var h := Held(s.sequence, s.cid);
      AssignExchange(r.cells[id], h);
      LedgerUpdate(r, id, Assigned(r.cells[id], h), AssignSends(r.cells[id]), r.cursor + 1);
    }
  }

  lemma ArrangeOnceQueues(r: Remote)
    requires Core(r) && CanArrange(r)
    ensures Queues(ArrangeOnce(r))
  {
    var r' := ArrangeOnce(r);
    var id := r.pending[0];
    assert r.pending == [id] + r.pending[1..];
    var before, after := r.pending + r.ready.items, r'.pending + r'.ready.items;
    assert before[1..] == r.pending[1..] + r.ready.items;
    assert r.cells[id].retired ==> after == before[1..];
    assert !r.cells[id].retired ==> after == before[1..] + [before[0]];
  }

  lemma ArrangeOnceHeads(r: Remote)
    requires Core(r) && CanArrange(r)
    ensures IdsOk(ArrangeOnce(r)) && Heads(ArrangeOnce(r))
  {
    var r' := ArrangeOnce(r);
    var id := r.pending[0];
    forall k: nat | r'.ready.Contains(k) && !r'.cells[r'.ready.At(k)].retired
      ensures r'.cells[r'.ready.At(k)].held != [] && r'.cells[r'.ready.At(k)].held[0].sequence == k
    {
      if r.ready.Contains(k) {
        assert r'.ready.At(k) == r.ready.At(k);
        assert (r.pending + r.ready.items)[|r.pending| + (k - r.ready.offset)] == r.ready.At(k);
        assert (r.pending + r.ready.items)[0] == id;
      }
    }
  }

  lemma ArrangeOncePreserves(r: Remote)
    requires Core(r) && CanArrange(r)
    ensures Core(ArrangeOnce(r))
    ensures CidAgreement(r) ==> CidAgreement(ArrangeOnce(r))
  {
    ArrangeOnceLedger(r);
    ArrangeOnceQueues(r);
    ArrangeOnceHeads(r);
    var r' := ArrangeOnce(r);
    var id := r.pending[0];
    assert Slots(r');
    assert CellsOk(r');
    if CidAgreement(r) {
      forall k: nat | r'.ready.Contains(k) && !r'.cells[r'.ready.At(k)].retired
        ensures r'.cells[r'.ready.At(k)].held[0].cid == r'.cids.At(k).value.cid
      {
        if r.ready.Contains(k) {
          assert r'.ready.At(k) == r.ready.At(k);
          assert (r.pending + r.ready.items)[|r.pending| + (k - r.ready.offset)] == r.ready.At(k);
          assert (r.pending + r.ready.items)[0] == id;
        }
      }
    }
  }

  lemma {:induction false} ArrangePreserves(r: Remote)
    requires Core(r)
    ensures Core(Arrange(r)) && Eager(Arrange(r))
    ensures Arrange(r).cids == r.cids && Arrange(r).limit == r.limit
    ensures CidAgreement(r) ==> CidAgreement(Arrange(r))
    decreases |r.pending|
  {
    if CanArrange(r) {
      ArrangeOncePreserves(r);
      ArrangePreserves(ArrangeOnce(r));
    }
  }

  // ---------------------------------------------------------------- a new CID arrives

  lemma StowPreserves(r: Remote, f: NewCidFrame)
    requires Core(r) && FrameOk(f) && r.cids.offset <= f.sequence
    ensures Core(Stow(r, f))
  {
    var r' := Stow(r, f);
    assert r'.cids.Get(0).Some? ==> r'.cids.Get(0).value == r'.cids.At(0);
    forall k: nat | r'.cids.Contains(k)
      ensures r'.cids.At(k).Some? ==> r'.cids.At(k).value.sequence == k
      ensures k < r'.cursor ==> r'.cids.At(k).Some?
    {
      assert r'.cids.Get(k) == Some(r'.cids.At(k));
      if r.cids.Contains(k) { assert r.cids.Get(k) == Some(r.cids.At(k)); }
    }
  }

  lemma {:induction false} LiveOnlyDistinct(ids: seq<nat>, cells: seq<Cell>)
    requires forall i :: 0 <= i < |ids| ==> ids[i] < |cells|
    requires Distinct(ids)
    ensures Distinct(LiveOnly(ids, cells))
  {
    if ids != [] {
      LiveOnlyDistinct(ids[..|ids| - 1], cells);
      LiveOnlyMembers(ids[..|ids| - 1], cells);
    }
  }

  lemma RetirePriorToQueues(r: Remote, tomb: nat)
    requires Core(r) && tomb <= r.cids.Largest()
    ensures Queues(RetirePriorTo(r, tomb))
  {
    var r' := RetirePriorTo(r, tomb);
    if r.ready.offset < tomb && r.ready.items != [] {
      var popped := Min(r.ready.Largest(), tomb) - r.ready.offset;
      var front, back := r.ready.items[..popped], r.ready.items[popped..];
      var live := LiveOnly(front, r.cells);
      assert r.ready.items == front + back;
      DistinctConcat(r.pending, r.ready.items);
      DistinctConcat(front, back);
      LiveOnlyDistinct(front, r.cells);
      LiveOnlyMembers(front, r.cells);
      DistinctConcat(r.pending, live);
      DistinctConcat(r.pending + live, back);
      assert r'.pending == r.pending + live && r'.ready.items == back;
    }
  }

  lemma RetirePriorToLedger(r: Remote, tomb: nat)
    requires Core(r) && tomb <= r.cids.Largest()
    ensures Ledger(RetirePriorTo(r, tomb))
  {
    if r.cursor < tomb {
      var jumped := Range(r.cursor, tomb);
      forall s: nat
        ensures HeldCount(r.cells, s) + Count(r.sent + jumped, s) == if s < tomb then 1 else 0
      {
        CountConcat(r.sent, jumped, s);
        CountRange(r.cursor, tomb, s);
        assert HeldCount(r.cells, s) + Count(r.sent, s) == if s < r.cursor then 1 else 0;
      }
    }
  }

  lemma RetirePriorToSlots(r: Remote, tomb: nat)
    requires Core(r) && tomb <= r.cids.Largest()
    ensures var r' := RetirePriorTo(r, tomb);
            Slots(r') && forall k: nat :: r'.cids.Contains(k) ==> r.cids.Contains(k) && r'.cids.At(k) == r.cids.At(k)
  {
    var r' := RetirePriorTo(r, tomb);
    forall k: nat | r'.cids.Contains(k) ensures r.cids.Contains(k) && r'.cids.At(k) == r.cids.At(k) {
      assert r'.cids.Get(k) == Some(r'.cids.At(k));
      assert r.cids.Get(k).Some?;
    }
  }

  lemma RetirePriorToPreserves(r: Remote, tomb: nat)
    requires Core(r) && tomb <= r.cids.Largest()
    ensures Core(RetirePriorTo(r, tomb))
    ensures RetirePriorTo(r, tomb).cids.Largest() == r.cids.Largest()
    ensures CidAgreement(r) ==> CidAgreement(RetirePriorTo(r, tomb))
  {
    var r' := RetirePriorTo(r, tomb);
    RetirePriorToQueues(r, tomb);
    RetirePriorToLedger(r, tomb);
    RetirePriorToSlots(r, tomb);
    forall k: nat | r'.ready.Contains(k) ensures r.ready.Contains(k) && r'.ready.At(k) == r.ready.At(k) {
    }
  }

  /** The frame replaces the CID of a live, assigned sequence by a different one. */
  ghost predicate Overwrites(r: Remote, f: NewCidFrame)
    requires Core(r)
  {
    && Accepts(r, f)
    && r.ready.Contains(f.sequence)
    && !r.cells[r.ready.At(f.sequence)].retired
    && r.cids.At(f.sequence).value.cid != f.cid
  }

  lemma StowAgreement(r: Remote, f: NewCidFrame)
    requires Core(r) && CidAgreement(r) && FrameOk(f) && Accepts(r, f) && !Overwrites(r, f)
    ensures Core(Stow(r, f)) && CidAgreement(Stow(r, f))
  {
    StowPreserves(r, f);
    var r' := Stow(r, f);
    forall k: nat | r'.ready.Contains(k) && !r'.cells[r'.ready.At(k)].retired
      ensures r'.cells[r'.ready.At(k)].held[0].cid == r'.cids.At(k).value.cid
    {
      assert r'.cids.Get(k) == Some(r'.cids.At(k));
      assert r.cids.Get(k) == Some(r.cids.At(k));
    }
  }

  /** A new CID keeps the invariant; the store never spans more than the limit plus one. */
  lemma RecvNewCidPreserves(r: Remote, f: NewCidFrame)
    requires Inv(r) && FrameOk(f)
    ensures Inv(RecvNewCid(r, f)) && RecvNewCid(r, f).limit == r.limit
    ensures CidAgreement(r) && !Overwrites(r, f) ==> CidAgreement(RecvNewCid(r, f))
  {
    if Accepts(r, f) {
      var stowed := Stow(r, f);
      StowPreserves(r, f);
      if CidAgreement(r) && !Overwrites(r, f) { StowAgreement(r, f); }
      RetirePriorToPreserves(stowed, f.retirePriorTo);
      ArrangePreserves(RetirePriorTo(stowed, f.retirePriorTo));
    }
  }

  // ---------------------------------------------------------------- the other calls

  /** The store with a fresh cell queued, before arranging. */
  ghost function WithNewCell(r: Remote): Remote {
    r.(cells := r.cells + [Cell([], false, false)], pending := r.pending + [|r.cells|])
  }

  lemma WithNewCellPreserves(r: Remote)
    requires Inv(r)
    ensures Core(WithNewCell(r)) && (CidAgreement(r) ==> CidAgreement(WithNewCell(r)))
  {
    var r' := WithNewCell(r);
    DistinctConcat(r.pending, r.ready.items);
    DistinctConcat(r.pending, [|r.cells|]);
    DistinctConcat(r'.pending, r'.ready.items);
    forall s: nat ensures HeldCount(r'.cells, s) + Count(r'.sent, s) == if s < r'.cursor then 1 else 0 {
      assert r'.cells[..|r.cells|] == r.cells;
      assert Sequences([]) == [];
      assert HeldCount(r.cells, s) + Count(r.sent, s) == if s < r.cursor then 1 else 0;
    }
  }

  lemma ApplyPreserves(r: Remote)
    requires Inv(r)
    ensures Inv(Apply(r)) && Apply(r).limit == r.limit
    ensures CidAgreement(r) ==> CidAgreement(Apply(r))
  {
    WithNewCellPreserves(r);
    ArrangePreserves(WithNewCell(r));
  }

  /** With nobody waiting and the next CID in store, an application is served at once. */
  lemma ApplyServesAtOnce(r: Remote)
    requires Steppable(r) && r.pending == [] && NextCid(r).Some?
    ensures var s := NextCid(r).value;
            Apply(r) == r.(cells := r.cells + [Cell([Held(s.sequence, s.cid)], false, false)],
                           ready := IndexDeque(r.ready.offset, r.ready.items + [|r.cells|]),
                           cursor := r.cursor + 1)
  {
    var waiting := WithNewCell(r);
    var served := ArrangeOnce(waiting);
    assert Sequences([]) == [];
    assert r.sent + [] == r.sent;
    assert served.cells == r.cells + [Cell([Held(NextCid(r).value.sequence, NextCid(r).value.cid)], false, false)];
    assert Arrange(served) == served;
    assert Arrange(waiting) == served;
  }

  /** A change of one cell that keeps its head sequence, or retires it, keeps everything but the ledger. */
  lemma CellChangePreserves(r: Remote, id: nat, c: Cell, sends: seq<nat>)
    requires Inv(r) && id < |r.cells| && CellOk(c)
    requires r.cells[id].retired ==> c.retired
    requires !c.retired ==> (r.cells[id].held == [] <==> c.held == [])
    requires !c.retired && c.held != [] ==> c.held[0].sequence == r.cells[id].held[0].sequence
    requires Exchange(r.cells[id], c, sends, r.cursor, r.cursor)
    ensures Inv(r.(cells := r.cells[id := c], sent := r.sent + sends))
  {
    LedgerUpdate(r, id, c, sends, r.cursor);
    var r' := r.(cells := r.cells[id := c], sent := r.sent + sends);
    assert Ledger(r');
    assert Heads(r');
  }

  lemma BorrowPreserves(r: Remote, id: nat)
    requires Inv(r) && id < |r.cells|
    ensures Inv(Borrow(r, id))
    ensures CidAgreement(r) ==> CidAgreement(Borrow(r, id))
  {
    assert CellOk(r.cells[id]);
    CellChangePreserves(r, id, BorrowedCell(r.cells[id]), []);
    assert r.sent + [] == r.sent;
  }

  lemma RenewPreserves(r: Remote, id: nat)
    requires Inv(r) && id < |r.cells|
    ensures Inv(Renew(r, id))
    ensures CidAgreement(r) ==> CidAgreement(Renew(r, id))
  {
    assert CellOk(r.cells[id]);
    RenewExchange(r.cells[id], r.cursor);
    CellChangePreserves(r, id, Renewed(r.cells[id]), RenewSends(r.cells[id]));
  }

  lemma RetirePreserves(r: Remote, id: nat)
    requires Inv(r) && id < |r.cells|
    ensures Inv(Retire(r, id))
    ensures CidAgreement(r) ==> CidAgreement(Retire(r, id))
  {
    assert CellOk(r.cells[id]);
    CellChangePreserves(r, id, RetiredCell(r.cells[id]), RetireSends(r.cells[id]));
  }

  lemma RevisePreserves(r: Remote, dcid: ConnectionId)
    requires Inv(r) && CanRevise(r)
    ensures Inv(Revise(r, dcid))
    ensures CidAgreement(r) ==> CidAgreement(Revise(r, dcid))
  {
    var f := NewCidFrame(0, 0, dcid, []);
    StowPreserves(r, f);
    var stowed := Stow(r, f);
    var r' := Revise(r, dcid);
    assert Eager(stowed) by {
      assert stowed.cids.Get(stowed.cursor)
          == if stowed.cursor == 0 then Some(Some(Stored(0, dcid, []))) else r.cids.Get(r.cursor);
    }
    if r.ready.Contains(0) {
      var id := r.ready.At(0);
      var c := RevisedCell(r.cells[id], dcid);
      assert CellOk(r.cells[id]);
      assert Sequences(c.held) == Sequences(r.cells[id].held);
      CellChangePreserves(stowed, id, c, []);
      assert r.sent + [] == r.sent;
    }
  }

  // ---------------------------------------------------------------- whole runs

  /** A call whose precondition fails is not made. */
  ghost function Next(r: Remote, s: Step): Remote {
    if Steppable(r) && Enabled(r, s) then Exec(r, s) else r
  }

  ghost function Run(r: Remote, steps: seq<Step>): Remote {
    if steps == [] then r else Next(Run(r, steps[..|steps| - 1]), steps[|steps| - 1])
  }

  lemma NextPreserves(r: Remote, s: Step)
    requires Inv(r)
    ensures Inv(Next(r, s)) && Next(r, s).limit == r.limit
    ensures CidAgreement(r) && (s.NewCidStep? ==> !Overwrites(r, s.frame)) ==> CidAgreement(Next(r, s))
  {
    if Enabled(r, s) {
      match s
      case ApplyStep => ApplyPreserves(r);
      case NewCidStep(f) => RecvNewCidPreserves(r, f);
      case BorrowStep(id) => BorrowPreserves(r, id);
      case RenewStep(id) => RenewPreserves(r, id);
      case RetireStep(id) => RetirePreserves(r, id);
      case ReviseStep(dcid) => RevisePreserves(r, dcid);
    }
  }

  lemma NewSatisfiesInv(dcid: ConnectionId, limit: nat)
    ensures Inv(New(dcid, limit)) && CidAgreement(New(dcid, limit))
  {
  }

  /** Ledger, index agreement, eager assignment and the bounded store, in every reachable state. */
  lemma {:induction false} ReachableInv(dcid: ConnectionId, limit: nat, steps: seq<Step>)
    ensures Inv(Run(New(dcid, limit), steps))
  {
    if steps == [] {
      NewSatisfiesInv(dcid, limit);
    } else {
      ReachableInv(dcid, limit, steps[..|steps| - 1]);
      NextPreserves(Run(New(dcid, limit), steps[..|steps| - 1]), steps[|steps| - 1]);
    }
  }

  /** No frame of the run replaces the CID of a live, assigned sequence by a different one. */
  ghost predicate Faithful(r: Remote, steps: seq<Step>) {
    steps == [] ||
    var before, last := steps[..|steps| - 1], steps[|steps| - 1];
    && Faithful(r, before)
    && (last.NewCidStep? && Core(Run(r, before)) ==> !Overwrites(Run(r, before), last.frame))
  }

  /** Every live ready cell uses the stored CID of its own index, after any faithful run. */
  lemma {:induction false} ReachableAgreement(dcid: ConnectionId, limit: nat, steps: seq<Step>)
    requires Faithful(New(dcid, limit), steps)
    ensures Inv(Run(New(dcid, limit), steps)) && CidAgreement(Run(New(dcid, limit), steps))
  {
    if steps == [] {
      NewSatisfiesInv(dcid, limit);
    } else {
      ReachableAgreement(dcid, limit, steps[..|steps| - 1]);
      NextPreserves(Run(New(dcid, limit), steps[..|steps| - 1]), steps[|steps| - 1]);
    }
  }

  // ---------------------------------------------------------------- agreement, exactly

  lemma {:induction false} ArrangeKeepsReady(r: Remote, k: nat)
    requires Core(r) && r.ready.Contains(k)
    ensures Arrange(r).ready.Contains(k) && Arrange(r).ready.At(k) == r.ready.At(k)
    ensures r.ready.At(k) < |Arrange(r).cells| && Arrange(r).cells[r.ready.At(k)] == r.cells[r.ready.At(k)]
    decreases |r.pending|
  {
    if CanArrange(r) {
      ArrangeOncePreserves(r);
      assert (r.pending + r.ready.items)[|r.pending| + (k - r.ready.offset)] == r.ready.At(k);
      assert (r.pending + r.ready.items)[0] == r.pending[0];
      assert ArrangeOnce(r).ready.At(k) == r.ready.At(k);
      ArrangeKeepsReady(ArrangeOnce(r), k);
    }
  }

  /** What a frame leaves in store is what was there, and the frame's own CID if it is accepted. */
  lemma RecvNewCidStore(r: Remote, f: NewCidFrame, k: nat)
    requires Inv(r) && FrameOk(f)
    ensures var r' := RecvNewCid(r, f);
            && r'.cids.Largest() <= Max(r.cids.Largest(), f.sequence + 1)
            && (r'.cids.Contains(k) && r'.cids.At(k).Some? && !(Accepts(r, f) && k == f.sequence) ==>
                  r.cids.Contains(k) && r'.cids.At(k) == r.cids.At(k))
            && (Accepts(r, f) && k == f.sequence ==>
                  r'.cids.Contains(k) && r'.cids.At(k) == Some(Stored(k, f.cid, f.token)))
  {
    if Accepts(r, f) {
      var stowed := Stow(r, f);
      StowPreserves(r, f);
      RetirePriorToPreserves(stowed, f.retirePriorTo);
      RetirePriorToSlots(stowed, f.retirePriorTo);
      ArrangePreserves(RetirePriorTo(stowed, f.retirePriorTo));
      assert stowed.cids.Get(f.sequence) == Some(Some(Stored(f.sequence, f.cid, f.token)));
      if stowed.cids.Contains(k) && k != f.sequence { assert stowed.cids.Get(k) == Some(stowed.cids.At(k)); }
    }
  }

  lemma RetirePriorToKeepsReady(r: Remote, tomb: nat, k: nat)
    requires Steppable(r) && tomb <= r.cids.Largest() && r.ready.Contains(k) && tomb <= k
    ensures var q := RetirePriorTo(r, tomb);
            q.cells == r.cells && q.ready.Contains(k) && q.ready.At(k) == r.ready.At(k)
  {
  }

  /** A ready cell whose index the frame does not retire is left alone. */
  lemma RecvNewCidKeepsReady(r: Remote, f: NewCidFrame, k: nat)
    requires Inv(r) && FrameOk(f) && r.ready.Contains(k) && f.retirePriorTo <= k
    ensures var r' := RecvNewCid(r, f);
            && r'.ready.Contains(k) && r'.ready.At(k) == r.ready.At(k)
            && r.ready.At(k) < |r'.cells| && r'.cells[r.ready.At(k)] == r.cells[r.ready.At(k)]
  {
    if Accepts(r, f) {
      var stowed := Stow(r, f);
      StowPreserves(r, f);
      RetirePriorToPreserves(stowed, f.retirePriorTo);
      RetirePriorToKeepsReady(stowed, f.retirePriorTo, k);
      ArrangeKeepsReady(RetirePriorTo(stowed, f.retirePriorTo), k);
    }
  }

  lemma OverwriteBreaks(r: Remote, f: NewCidFrame)
    requires Inv(r) && CidAgreement(r) && FrameOk(f) && Overwrites(r, f)
    ensures Core(RecvNewCid(r, f)) && !CidAgreement(RecvNewCid(r, f))
  {
    RecvNewCidPreserves(r, f);
    RecvNewCidStore(r, f, f.sequence);
    RecvNewCidKeepsReady(r, f, f.sequence);
  }

  /** A frame keeps cells and store in agreement exactly when it does not overwrite a CID in use. */
  lemma AgreementIff(r: Remote, f: NewCidFrame)
    requires Inv(r) && CidAgreement(r) && FrameOk(f)
    ensures Inv(RecvNewCid(r, f))
    ensures CidAgreement(RecvNewCid(r, f)) <==> !Overwrites(r, f)
  {
    RecvNewCidPreserves(r, f);
    if Overwrites(r, f) { OverwriteBreaks(r, f); }
  }

  // ---------------------------------------------------------------- borrowing

  /** The cell is borrowed, live, and holds sequence `q`. */
  ghost predicate Lends(r: Remote, id: nat, q: nat) {
    id < |r.cells| && r.cells[id].using && !r.cells[id].retired && Holds(r.cells[id], q)
  }

  lemma {:induction false} ArrangeKeepsLoan(r: Remote, id: nat, q: nat)
    requires Arrangeable(r) && Lends(r, id, q)
    ensures Lends(Arrange(r), id, q)
    decreases |r.pending|
  {
    if CanArrange(r) {
      var front := r.pending[0];
      if front == id && NextCid(r).Some? {
        SequencesConcat([Held(NextCid(r).value.sequence, NextCid(r).value.cid)], r.cells[id].held);
      }
      ArrangeKeepsLoan(ArrangeOnce(r), id, q);
    }
  }

  lemma NextKeepsLoan(r: Remote, s: Step, id: nat, q: nat)
    requires Inv(r) && Lends(r, id, q) && s != RenewStep(id) && s != RetireStep(id)
    ensures Lends(Next(r, s), id, q)
  {
    if Enabled(r, s) {
      match s
      case ApplyStep =>
        ArrangeKeepsLoan(WithNewCell(r), id, q);
      case NewCidStep(f) =>
        if Accepts(r, f) {
          ArrangeKeepsLoan(RetirePriorTo(Stow(r, f), f.retirePriorTo), id, q);
        }
      case BorrowStep(_) =>
      case RenewStep(_) =>
      case RetireStep(_) =>
      case ReviseStep(dcid) =>
        if r.ready.Contains(0) {
          var c := r.cells[r.ready.At(0)];
          assert Sequences(RevisedCell(c, dcid).held) == Sequences(c.held);
        }
    }
  }

  /**
   * From borrow to drop no RETIRE_CONNECTION_ID is sent for the borrowed sequence unless the cell
   * itself is retired, however many other calls, reassignments included, come between.
   */
  lemma {:induction false} BorrowSafety(r: Remote, steps: seq<Step>, id: nat, q: nat)
    requires Inv(r) && Lends(r, id, q)
    requires RenewStep(id) !in steps && RetireStep(id) !in steps
    ensures Inv(Run(r, steps)) && Lends(Run(r, steps), id, q) && q !in Run(r, steps).sent
  {
    if steps != [] {
      var n := |steps| - 1;
      BorrowSafety(r, steps[..n], id, q);
      NextPreserves(Run(r, steps[..n]), steps[n]);
      NextKeepsLoan(Run(r, steps[..n]), steps[n], id, q);
    }
    LedgerReading(Run(r, steps), q);
    assert Holds(Run(r, steps).cells[id], q);
  }

  /** A successful borrow starts such a loan on the CID it returns, and its drop leaves at most one sequence. */
  lemma BorrowThenDrop(r: Remote, id: nat)
    requires Inv(r) && id < |r.cells| && BorrowResult(r.cells[id]).Lent?
    ensures var c := r.cells[id];
            Lends(Borrow(r, id), id, c.held[0].sequence) && BorrowResult(c).cid == c.held[0].cid
    ensures |Renew(r, id).cells[id].held| == 1 && Renew(r, id).cells[id].held[0] == r.cells[id].held[0]
    ensures var others := Sequences(r.cells[id].held[1..]);
            multiset(Renew(r, id).sent) == multiset(r.sent) + multiset(others)
  {
    var c := r.cells[id];
    assert Sequences(c.held)[0] == c.held[0].sequence;
    ReversedMultiset(Sequences(Tail(c.held)));
  }
}
