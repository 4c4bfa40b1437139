/** A run of an honest pair that ends in a CONNECTION_ID_LIMIT error although only two CIDs are in use. */
module CidLimitExample {
  import opened Prelude
  import opened IndexDeques
  import opened RemoteCidSpec
  import opened RemoteCidProofs
  import opened CidPair
  import L = LocalCidSpec
  import Routing

  /** The issuer's first CID and the three it draws, all different. */
  datatype Cast = Cast(scid: ConnectionId, one: L.Identity, two: L.Identity, three: L.Identity)

  predicate Different(c: Cast) {
    && c.scid != c.one.cid && c.scid != c.two.cid && c.scid != c.three.cid
    && c.one.cid != c.two.cid && c.one.cid != c.three.cid && c.two.cid != c.three.cid
  }

  function Drawn(n: nat, c: Cast): L.Identity { if n == 1 then c.one else if n == 2 then c.two else c.three }

  function Frame(n: nat, c: Cast): NewCidFrame { NewCidFrame(n, 0, Drawn(n, c).cid, Drawn(n, c).token) }

  /** The issuer once that many sequences are retired. */
  function Issuer(retired: nat, c: Cast): L.Local {
    var first := Some(L.Identity(c.scid, []));
    if retired == 0 then L.Local(IndexDeque(0, [first, Some(c.one)]), None, [Frame(1, c)])
    else if retired == 1 then L.Local(IndexDeque(0, [first, None, Some(c.two)]), None, [Frame(1, c), Frame(2, c)])
    else L.Local(IndexDeque(0, [first, None, None, Some(c.three)]), None, [Frame(1, c), Frame(2, c), Frame(3, c)])
  }

  function Slots(n: nat, c: Cast): IndexDeque<Option<Stored>> {
    var first, second, third :=
      Some(Stored(0, c.scid, [])), Some(Stored(1, c.one.cid, c.one.token)), Some(Stored(2, c.two.cid, c.two.token));
    IndexDeque(0, if n == 1 then [first] else if n == 2 then [first, second] else [first, second, third])
  }

  function Live(n: nat, c: Cast): Cell { Cell([Held(n, if n == 0 then c.scid else Drawn(n, c).cid)], false, false) }

  const DEAD := Cell([], true, false)

  /** The store after `n` steps. */
  function Store(n: nat, c: Cast): Remote {
    match n
    case 0 => Remote(Slots(1, c), IndexDeque(0, []), [], 2, 0, [], [])
    case 1 => Remote(Slots(2, c), IndexDeque(0, []), [], 2, 0, [], [])
    case 2 => Remote(Slots(2, c), IndexDeque(0, [0]), [], 2, 1, [Live(0, c)], [])
    case 3 => Remote(Slots(2, c), IndexDeque(0, [0, 1]), [], 2, 2, [Live(0, c), Live(1, c)], [])
    case 4 => Remote(Slots(2, c), IndexDeque(0, [0, 1]), [], 2, 2, [Live(0, c), DEAD], [1])
    case 5 => Remote(Slots(3, c), IndexDeque(0, [0, 1]), [], 2, 2, [Live(0, c), DEAD], [1])
    case 6 => Remote(Slots(3, c), IndexDeque(0, [0, 1, 2]), [], 2, 3, [Live(0, c), DEAD, Live(2, c)], [1])
    case _ => Remote(Slots(3, c), IndexDeque(0, [0, 1, 2]), [], 2, 3, [Live(0, c), DEAD, DEAD], [1, 2])
  }

  lemma Deliver(n: nat, f: nat, c: Cast)
    requires (n == 0 && f == 1) || (n == 4 && f == 2)
    ensures Next(Store(n, c), NewCidStep(Frame(f, c))) == Store(n + 1, c)
  {
    assert Stow(Store(n, c), Frame(f, c)).cids.items == Slots(f + 1, c).items;
  }

  lemma Assign(n: nat, c: Cast)
    requires n == 1 || n == 2 || n == 5
    ensures Next(Store(n, c), ApplyStep) == Store(n + 1, c)
  {
    ApplyServesAtOnce(Store(n, c));
  }

  lemma Retires(n: nat, id: nat, c: Cast)
    requires (n == 3 && id == 1) || (n == 6 && id == 2)
    ensures Next(Store(n, c), RetireStep(id)) == Store(n + 1, c)
  {
    assert Sequences(Live(id, c).held) == [id];
  }

  lemma Reissues(retired: nat, c: Cast)
    requires retired < 2
    ensures L.Unretired(Issuer(retired, c), retired + 1)
    ensures L.RecvRetire(Issuer(retired, c), retired + 1, Drawn(retired + 2, c)) == Issuer(retired + 1, c)
  {
    var l := Issuer(retired, c);
    assert l.deque.items[retired + 1 := None][0].Some?;
  }

  /** The CIDs the issuer's peer may use. */
  lemma UsableCids(retired: nat, c: Cast)
    requires retired < 2
    ensures Routing.LiveCids(Issuer(retired, c)) == {c.scid, Drawn(retired + 1, c).cid}
  {
    var l := Issuer(retired, c);
    assert L.Unretired(l, 0) && L.CidOf(l, 0) == c.scid;
    assert L.Unretired(l, retired + 1) && L.CidOf(l, retired + 1) == Drawn(retired + 1, c).cid;
    forall s: nat | L.Unretired(l, s) ensures s == 0 || s == retired + 1 {}
  }

  // ---------------------------------------------------------------- the run, step by step

  /** A step that draws a CID draws one the issuer's peer may not use already. */
  ghost predicate DrawsVacant(p: Pair, s: PairStep) {
    match s
    case DeliverRetire(_, minted) => minted.cid !in Routing.LiveCids(p.local)
    case LearnLimit(drawn) => drawn == []
    case _ => true
  }

  /** Every draw of the run is vacant, as the generator guarantees. */
  ghost predicate AllDrawsVacant(p: Pair, steps: seq<PairStep>) {
    steps == [] || (&& AllDrawsVacant(p, steps[..|steps| - 1])
                    && DrawsVacant(PairRun(p, steps[..|steps| - 1]), steps[|steps| - 1]))
  }

  ghost function Start(c: Cast): Pair { Init(c.scid, c.one, c.scid, 2) }

  /** The steps lead from `start` to `p`, and every draw on the way is vacant. */
  ghost predicate Reaches(start: Pair, steps: seq<PairStep>, p: Pair) {
    AllDrawsVacant(start, steps) && PairRun(start, steps) == p
  }

  lemma OneMore(start: Pair, steps: seq<PairStep>, p: Pair, s: PairStep)
    requires Reaches(start, steps, p) && DrawsVacant(p, s)
    ensures Reaches(start, steps + [s], PairNext(p, s))
  {
    assert (steps + [s])[..|steps|] == steps;
  }

  /** The steps lead to these states of issuer and store. */
  ghost predicate Leads(c: Cast, steps: seq<PairStep>, retired: nat, n: nat) {
    Reaches(Start(c), steps, Pair(Issuer(retired, c), Store(n, c)))
  }

  lemma Opening(c: Cast) returns (steps: seq<PairStep>)
    ensures Leads(c, steps, 0, 4)
  {
    Deliver(0, 1, c);
    Assign(1, c);
    Assign(2, c);
    Retires(3, 1, c);
    OneMore(Start(c), [], Pair(Issuer(0, c), Store(0, c)), DeliverNew(0));
    steps := [] + [DeliverNew(0)];
    OneMore(Start(c), steps, Pair(Issuer(0, c), Store(1, c)), Path(ApplyStep));
    steps := steps + [Path(ApplyStep)];
    OneMore(Start(c), steps, Pair(Issuer(0, c), Store(2, c)), Path(ApplyStep));
    steps := steps + [Path(ApplyStep)];
    OneMore(Start(c), steps, Pair(Issuer(0, c), Store(3, c)), Path(RetireStep(1)));
    steps := steps + [Path(RetireStep(1))];
  }

  lemma Middle(c: Cast) returns (steps: seq<PairStep>)
    requires Different(c)
    ensures Leads(c, steps, 1, 6)
  {
    Reissues(0, c);
    UsableCids(0, c);
    Deliver(4, 2, c);
    Assign(5, c);
    steps := Opening(c);
    OneMore(Start(c), steps, Pair(Issuer(0, c), Store(4, c)), DeliverRetire(0, c.two));
    steps := steps + [DeliverRetire(0, c.two)];
    OneMore(Start(c), steps, Pair(Issuer(1, c), Store(4, c)), DeliverNew(1));
    steps := steps + [DeliverNew(1)];
    OneMore(Start(c), steps, Pair(Issuer(1, c), Store(5, c)), Path(ApplyStep));
    steps := steps + [Path(ApplyStep)];
  }

  lemma Ending(c: Cast) returns (steps: seq<PairStep>)
    requires Different(c)
    ensures Leads(c, steps, 2, 7)
  {
    Retires(6, 2, c);
    Reissues(1, c);
    UsableCids(1, c);
    steps := Middle(c);
    OneMore(Start(c), steps, Pair(Issuer(1, c), Store(6, c)), Path(RetireStep(2)));
    steps := steps + [Path(RetireStep(2))];
    OneMore(Start(c), steps, Pair(Issuer(1, c), Store(7, c)), DeliverRetire(1, c.three));
    steps := steps + [DeliverRetire(1, c.three)];
  }

  /** The issuer's part of the run, on the router's table. */
  function RouterSteps(c: Cast): seq<Routing.WorldStep> {
    [Routing.Open(0, c.scid, c.one), Routing.RetireOf(0, 1, c.two), Routing.RetireOf(0, 2, c.three)]
  }

  /** The router allows each of its steps: a draw that is not vacant would change nothing. */
  lemma RouterAllows(c: Cast)
    requires Different(c)
    ensures var w := Routing.WorldRun(RouterSteps(c)); 0 in w.conns && w.conns[0] == Issuer(2, c)
  {
    var steps := RouterSteps(c);
    var first, second := steps[..1], steps[..2];
    assert first[..0] == [] && second[..1] == first && steps[..2] == second;
    assert Issuer(0, c) == L.New(c.scid, c.one);
    var w0, w1 := Routing.WorldRun([]), Routing.WorldRun(first);
    assert w0 == Routing.World(map[], map[]);
    assert w1 == Routing.WorldNext(w0, steps[0]);
    assert w1.conns[0] == Issuer(0, c) && w1.table.Keys == {c.scid, c.one.cid};
    Reissues(0, c);
    var w2 := Routing.WorldRun(second);
    assert w2 == Routing.WorldNext(w1, steps[1]);
    assert w2.conns[0] == Issuer(1, c) && c.three.cid !in w2.table;
    Reissues(1, c);
    assert Routing.WorldRun(steps) == Routing.WorldNext(w2, steps[2]);
  }

  lemma LastFrameIsRejected(c: Cast)
    ensures L.UnretiredCount(Issuer(2, c)) == 2
    ensures RecvNewCidResult(Store(7, c), Issuer(2, c).frames[2]) == Failure(ConnectionIdLimit(3))
  {
    var items := Issuer(2, c).deque.items;
    assert L.CountSome(items[..3][..2][..1][..0]) == 0;
    assert L.CountSome(items[..3][..2][..1]) == 1;
    assert L.CountSome(items[..3][..2]) == 1;
    assert L.CountSome(items[..3]) == 1;
  }

  /**
   * Peers that keep to a limit of two can still end the connection with a limit error: the frame
   * issued last is rejected although only two CIDs are usable. Every CID drawn on the way is vacant,
   * and the router ends with the same issuer.
   */
  lemma HonestPairCanHitLimit(c: Cast) returns (steps: seq<PairStep>)
    requires Different(c)
    ensures var p := PairRun(Start(c), steps);
            && AllDrawsVacant(Start(c), steps)
            && 0 in Routing.WorldRun(RouterSteps(c)).conns && Routing.WorldRun(RouterSteps(c)).conns[0] == p.local
            && L.UnretiredCount(p.local) == 2
            && |p.local.frames| == 3
            && RecvNewCidResult(p.remote, p.local.frames[2]) == Failure(ConnectionIdLimit(3))
  {
    steps := Ending(c);
    RouterAllows(c);
    LastFrameIsRejected(c);
  }
}
