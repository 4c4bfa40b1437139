/** The packet router's table over all connections, as issuing and retiring CIDs change it. */
module Routing {
  import opened Prelude
  import opened LocalCidSpec

  /** Which receive queue a connection ID leads to. */
  type Table = map<ConnectionId, nat>

  /** Some drawn CID is not in the table: otherwise the generator keeps drawing. */
  predicate HasVacant(table: Table, draws: seq<ConnectionId>) {
    exists i :: 0 <= i < |draws| && draws[i] !in table
  }

  function FirstVacant(table: Table, draws: seq<ConnectionId>): (cid: ConnectionId)
    requires HasVacant(table, draws)
    ensures cid !in table && cid in draws
  {
    if draws[0] !in table then draws[0] else FirstVacant(table, draws[1..])
  }

  /** What the random source yields for one new CID: candidates, and a reset token. */
  datatype Draw = Draw(candidates: seq<ConnectionId>, token: ResetToken)

  function Minted(table: Table, draw: Draw): Identity
    requires HasVacant(table, draw.candidates)
  {
    Identity(FirstVacant(table, draw.candidates), draw.token)
  }

  /** Every draw in turn finds a vacant CID. */
  predicate Supplies(table: Table, queue: nat, draws: seq<Draw>)
    decreases |draws|
  {
    draws == [] || (&& HasVacant(table, draws[0].candidates)
                    && Supplies(table[Minted(table, draws[0]).cid := queue], queue, draws[1..]))
  }

  function AllMinted(table: Table, queue: nat, draws: seq<Draw>): (r: seq<Identity>)
    requires Supplies(table, queue, draws)
    ensures |r| == |draws|
    decreases |draws|
  {
    if draws == [] then []
    else
      var m := Minted(table, draws[0]);
      [m] + AllMinted(table[m.cid := queue], queue, draws[1..])
  }

  function Register(table: Table, queue: nat, minted: seq<Identity>): Table
    decreases |minted|
  {
    if minted == [] then table else Register(table[minted[0].cid := queue], queue, minted[1..])
  }

  /** The table after a retirement: the replacement is registered before the old CID goes. */
  function RetireTable(table: Table, queue: nat, l: Local, s: nat, minted: Identity): Table {
    if Unretired(l, s) then table[minted.cid := queue] - {CidOf(l, s)} else table
  }

  function LiveCids(l: Local): set<ConnectionId> {
    set s: nat | l.deque.offset <= s < l.deque.Largest() && Unretired(l, s) :: CidOf(l, s)
  }

  function ClearTable(table: Table, l: Local): Table { table - LiveCids(l) }

  // ---------------------------------------------------------------- all connections

  datatype World = World(table: Table, conns: map<nat, Local>)

  ghost predicate Injective(l: Local) {
    forall s: nat, t: nat :: Unretired(l, s) && Unretired(l, t) && s != t ==> CidOf(l, s) != CidOf(l, t)
  }

  /** `cid` leads to queue `q`. */
  ghost predicate Leads(w: World, cid: ConnectionId, q: nat) { cid in w.table && w.table[cid] == q }

  ghost predicate Owns(w: World, cid: ConnectionId, q: nat) { q in w.conns && cid in LiveCids(w.conns[q]) }

  /** The table routes exactly the live CIDs, each to the connection that issued it. */
  ghost predicate Routed(w: World) {
    && (forall cid, q :: Leads(w, cid, q) <==> Owns(w, cid, q))
    && (forall q :: q in w.conns ==> Injective(w.conns[q]))
  }

  /** No two connections ever share a live CID. */
  lemma LiveCidsDisjoint(w: World, q: nat, q': nat)
    requires Routed(w) && q in w.conns && q' in w.conns && q != q'
    ensures LiveCids(w.conns[q]) !! LiveCids(w.conns[q'])
  {
    forall cid | cid in LiveCids(w.conns[q]) ensures cid !in LiveCids(w.conns[q']) {
      assert Owns(w, cid, q);
      assert Leads(w, cid, q) && !Leads(w, cid, q');
      assert !Owns(w, cid, q');
    }
  }

  lemma IssueLive(l: Local, minted: Identity)
    requires l.deque.Largest() <= VARINT_MAX
    ensures LiveCids(Issue(l, minted)) == LiveCids(l) + {minted.cid}
    ensures Injective(l) && minted.cid !in LiveCids(l) ==> Injective(Issue(l, minted))
  {
    var l' := Issue(l, minted);
    assert Unretired(l', l.deque.Largest()) && CidOf(l', l.deque.Largest()) == minted.cid;
    forall s: nat ensures Unretired(l, s) ==> Unretired(l', s) && CidOf(l', s) == CidOf(l, s) {
    }
    forall s: nat | Unretired(l', s) && s != l.deque.Largest()
      ensures Unretired(l, s) && CidOf(l', s) == CidOf(l, s)
    {
    }
  }

  lemma TakenLive(l: Local, s: nat)
    requires Unretired(l, s) && Injective(l)
    ensures var l' := l.(deque := Taken(l.deque, s)); LiveCids(l') == LiveCids(l) - {CidOf(l, s)} && Injective(l')
  {
    var l' := l.(deque := Taken(l.deque, s));
    var items := l.deque.items[s - l.deque.offset := None];
    forall k: nat | Unretired(l, k) && k != s ensures Unretired(l', k) && CidOf(l', k) == CidOf(l, k) {
      assert items[k - l.deque.offset].Some?;
    }
    forall k: nat | Unretired(l', k) ensures Unretired(l, k) && k != s && CidOf(l', k) == CidOf(l, k) {
    }
  }

  // ---------------------------------------------------------------- steps

  datatype WorldStep =
    | Open(q: nat, scid: ConnectionId, minted: Identity)
    | LimitOf(q: nat, limit: nat, drawn: seq<Identity>)
    | RetireOf(q: nat, s: nat, minted: Identity)
    | Close(q: nat)

  /** Each minted CID is vacant once those before it are registered. */
  predicate AllVacant(table: Table, queue: nat, minted: seq<Identity>)
    decreases |minted|
  {
    minted == [] || (minted[0].cid !in table && AllVacant(table[minted[0].cid := queue], queue, minted[1..]))
  }

  /** The generator only returns vacant CIDs. */
  lemma {:induction false} AllMintedVacant(table: Table, queue: nat, draws: seq<Draw>)
    requires Supplies(table, queue, draws)
    ensures AllVacant(table, queue, AllMinted(table, queue, draws))
    decreases |draws|
  {
    if draws != [] {
      var m := Minted(table, draws[0]);
      AllMintedVacant(table[m.cid := queue], queue, draws[1..]);
      assert AllMinted(table, queue, draws)[1..] == AllMinted(table[m.cid := queue], queue, draws[1..]);
    }
  }

  /** The CIDs a step brings in come from the generator, so they are vacant. */
  predicate Possible(w: World, step: WorldStep) {
    match step
    case Open(q, scid, minted) => q !in w.conns && scid !in w.table && minted.cid !in w.table && minted.cid != scid
    case LimitOf(q, limit, drawn) =>
      && q in w.conns
      && Enabled(w.conns[q], SetLimitStep(limit, drawn))
      && (2 <= limit ==> AllVacant(w.table, q, drawn))
    case RetireOf(q, _, minted) => q in w.conns && minted.cid !in w.table && w.conns[q].deque.Largest() <= VARINT_MAX
    case Close(q) => q in w.conns
  }

  function WorldNext(w: World, step: WorldStep): World {
    if !Possible(w, step) then w
    else match step
      case Open(q, scid, minted) => World(w.table[scid := q][minted.cid := q], w.conns[q := New(scid, minted)])
      case LimitOf(q, limit, drawn) =>
        World(if limit < 2 then w.table else Register(w.table, q, drawn),
              w.conns[q := SetLimit(w.conns[q], limit, drawn)])
      case RetireOf(q, s, minted) =>
        World(RetireTable(w.table, q, w.conns[q], s, minted), w.conns[q := RecvRetire(w.conns[q], s, minted)])
      case Close(q) => World(ClearTable(w.table, w.conns[q]), w.conns - {q})
  }

  /** A change of one connection's live CIDs that the table mirrors keeps routing exact. */
  lemma RoutedChange(w: World, w': World, q: nat)
    requires Routed(w) && w'.conns.Keys + {q} == w.conns.Keys + {q}
    requires forall p :: p in w.conns && p != q ==> p in w'.conns && w'.conns[p] == w.conns[p]
    requires forall cid, p :: p != q ==> (Leads(w', cid, p) <==> Leads(w, cid, p))
    requires forall cid :: Leads(w', cid, q) <==> Owns(w', cid, q)
    requires q in w'.conns ==> Injective(w'.conns[q])
    ensures Routed(w')
  {
    forall cid, p ensures Leads(w', cid, p) <==> Owns(w', cid, p) {
      if p != q {
        assert Leads(w, cid, p) <==> Owns(w, cid, p);
        assert p in w.conns <==> p in w'.conns by { assert p in w.conns.Keys + {q} <==> p in w'.conns.Keys + {q}; }
      }
    }
    forall p | p in w'.conns ensures Injective(w'.conns[p]) {
      if p != q { assert p in w.conns by { assert p in w'.conns.Keys + {q}; } }
    }
  }

  lemma OpenKeepsRouted(w: World, q: nat, scid: ConnectionId, minted: Identity)
    requires Routed(w) && Possible(w, Open(q, scid, minted))
    ensures Routed(WorldNext(w, Open(q, scid, minted)))
  {
    var l := New(scid, minted);
    var w' := WorldNext(w, Open(q, scid, minted));
    assert Unretired(l, 0) && CidOf(l, 0) == scid && Unretired(l, 1) && CidOf(l, 1) == minted.cid;
    assert LiveCids(l) == {scid, minted.cid};
    forall cid ensures Leads(w', cid, q) <==> Owns(w', cid, q) {
      assert !Owns(w, cid, q);
      assert !Leads(w, cid, q);
    }
    RoutedChange(w, w', q);
  }

  ghost function Issued(w: World, q: nat, minted: Identity): World
    requires q in w.conns && w.conns[q].deque.Largest() <= VARINT_MAX
  {
    World(w.table[minted.cid := q], w.conns[q := Issue(w.conns[q], minted)])
  }

  lemma IssueKeepsRouted(w: World, q: nat, minted: Identity)
    requires Routed(w) && q in w.conns && minted.cid !in w.table && w.conns[q].deque.Largest() <= VARINT_MAX
    ensures Routed(Issued(w, q, minted))
  {
    var w' := Issued(w, q, minted);
    IssueLive(w.conns[q], minted);
    assert !Leads(w, minted.cid, q);
    assert !Owns(w, minted.cid, q);
    forall cid ensures Leads(w', cid, q) <==> Owns(w', cid, q) {
      assert Leads(w, cid, q) <==> Owns(w, cid, q);
    }
    RoutedChange(w, w', q);
  }

  lemma {:induction false} IssueAllKeepsRouted(w: World, q: nat, drawn: seq<Identity>)
    requires Routed(w) && q in w.conns && AllVacant(w.table, q, drawn)
    requires w.conns[q].deque.Largest() + |drawn| <= VARINT_MAX + 1
    ensures Routed(World(Register(w.table, q, drawn), w.conns[q := IssueAll(w.conns[q], drawn)]))
    decreases |drawn|
  {
    if drawn == [] {
      assert w.conns[q := w.conns[q]] == w.conns;
    } else {
      var w' := Issued(w, q, drawn[0]);
      IssueKeepsRouted(w, q, drawn[0]);
      IssueAllKeepsRouted(w', q, drawn[1..]);
      assert w'.conns[q := IssueAll(w'.conns[q], drawn[1..])] == w.conns[q := IssueAll(w.conns[q], drawn)];
    }
  }

  lemma LimitIsUnrelated(l: Local, limit: nat)
    ensures LiveCids(l.(limit := Some(limit))) == LiveCids(l)
    ensures Injective(l) ==> Injective(l.(limit := Some(limit)))
  {
    var l' := l.(limit := Some(limit));
    forall s: nat ensures Unretired(l', s) <==> Unretired(l, s) { }
    forall s: nat | Unretired(l, s) ensures CidOf(l', s) == CidOf(l, s) { }
  }

  lemma LimitKeepsRouted(w: World, q: nat, limit: nat, drawn: seq<Identity>)
    requires Routed(w) && Possible(w, LimitOf(q, limit, drawn))
    ensures Routed(WorldNext(w, LimitOf(q, limit, drawn)))
  {
    var w' := WorldNext(w, LimitOf(q, limit, drawn));
    if limit < 2 {
      assert w' == w by { assert w.conns[q := w.conns[q]] == w.conns; }
    } else {
      IssueAllKeepsRouted(w, q, drawn);
      var l := IssueAll(w.conns[q], drawn);
      var w1 := World(Register(w.table, q, drawn), w.conns[q := l]);
      LimitIsUnrelated(l, limit);
      assert Injective(w1.conns[q]);
      forall cid ensures Leads(w', cid, q) <==> Owns(w', cid, q) {
        assert Leads(w1, cid, q) <==> Owns(w1, cid, q);
      }
      RoutedChange(w1, w', q);
    }
  }

  lemma RetireKeepsRouted(w: World, q: nat, s: nat, minted: Identity)
    requires Routed(w) && Possible(w, RetireOf(q, s, minted))
    ensures Routed(WorldNext(w, RetireOf(q, s, minted)))
  {
    var l := w.conns[q];
    var w' := WorldNext(w, RetireOf(q, s, minted));
    if Unretired(l, s) {
      var gone := CidOf(l, s);
      var rest := l.(deque := Taken(l.deque, s));
      TakenLive(l, s);
      assert !Leads(w, minted.cid, q);
      assert !Owns(w, minted.cid, q);
      IssueLive(rest, minted);
      assert Owns(w, gone, q);
      assert Leads(w, gone, q);
      forall cid ensures Leads(w', cid, q) <==> Owns(w', cid, q) {
        assert Leads(w, cid, q) <==> Owns(w, cid, q);
      }
      RoutedChange(w, w', q);
    } else {
      assert w' == w;
    }
  }

  lemma CloseKeepsRouted(w: World, q: nat)
    requires Routed(w) && Possible(w, Close(q))
    ensures Routed(WorldNext(w, Close(q)))
  {
    var w' := WorldNext(w, Close(q));
    forall cid, p ensures Leads(w', cid, p) <==> p != q && Leads(w, cid, p) {
      assert Leads(w, cid, p) <==> Owns(w, cid, p);
      assert Leads(w, cid, q) <==> Owns(w, cid, q);
    }
    RoutedChange(w, w', q);
  }

  function WorldRun(steps: seq<WorldStep>): World {
    if steps == [] then World(map[], map[]) else WorldNext(WorldRun(steps[..|steps| - 1]), steps[|steps| - 1])
  }

  /** In every run over any number of connections the table routes exactly the live CIDs. */
  lemma {:induction false} ReachableRouted(steps: seq<WorldStep>)
    ensures Routed(WorldRun(steps))
  {
    if steps != [] {
      var w := WorldRun(steps[..|steps| - 1]);
      ReachableRouted(steps[..|steps| - 1]);
      var step := steps[|steps| - 1];
      if Possible(w, step) {
        match step
        case Open(q, scid, minted) => OpenKeepsRouted(w, q, scid, minted);
        case LimitOf(q, limit, drawn) => LimitKeepsRouted(w, q, limit, drawn);
        case RetireOf(q, s, minted) => RetireKeepsRouted(w, q, s, minted);
        case Close(q) => CloseKeepsRouted(w, q);
      }
    }
  }

  /**
   * Clearing a closed connection once more, as dropping it does, keeps routing exact
   * if and only if none of the CIDs it remembers has been issued again since.
   */
  lemma SecondClearIff(w: World, l: Local)
    requires Routed(w)
    ensures Routed(w.(table := ClearTable(w.table, l))) <==> LiveCids(l) !! w.table.Keys
  {
    var w' := w.(table := ClearTable(w.table, l));
    if LiveCids(l) !! w.table.Keys {
      assert w'.table == w.table;
    } else {
      var cid :| cid in LiveCids(l) && cid in w.table;
      assert Leads(w, cid, w.table[cid]);
      assert Owns(w, cid, w.table[cid]) && Owns(w', cid, w.table[cid]);
      assert !Leads(w', cid, w.table[cid]);
    }
  }

  /** Such a clash is reachable: the second clear cuts off the connection that was given the CIDs since. */
  lemma SecondClearCanMisroute(scid: ConnectionId, minted: Identity)
    requires scid != minted.cid
    ensures var w := WorldRun([Open(0, scid, minted), Close(0), Open(1, scid, minted)]);
            Routed(w) && !Routed(w.(table := ClearTable(w.table, New(scid, minted))))
  {
    var l := New(scid, minted);
    var steps := [Open(0, scid, minted), Close(0), Open(1, scid, minted)];
    assert Unretired(l, 0) && CidOf(l, 0) == scid && Unretired(l, 1) && CidOf(l, 1) == minted.cid;
    assert LiveCids(l) == {scid, minted.cid};
    var w0, w1 := World(map[], map[]), World(map[][scid := 0][minted.cid := 0], map[0 := l]);
    assert WorldRun(steps[..0]) == w0 && steps[..1] == steps[..2][..1] && steps[..2] == steps[..3][..2];
    assert steps[..1][..0] == [];
    assert WorldRun(steps[..1]) == w1;
    assert WorldNext(w1, Close(0)) == w0;
    assert WorldRun(steps[..2]) == w0;
    assert steps == steps[..3];
    assert scid in WorldRun(steps).table;
    ReachableRouted(steps);
    SecondClearIff(WorldRun(steps), l);
  }
}
