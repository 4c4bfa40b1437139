/**
 * The mutable issuer of `qbase/src/cid/local_cid.rs` over the shared router table of
 * `qinterface/src/router.rs`. The random source is a parameter: what it draws.
 */
module LocalCid {
  import opened Prelude
  import opened IndexDeques
  import opened LocalCidSpec
  import opened Routing

  class QuicProto {
    var routerTable: Table

    constructor ()
      ensures routerTable == map[]
    {
      routerTable := map[];
    }
  }

  /** One connection's access to the router, and its outgoing NEW_CONNECTION_ID frames. */
  class RouterRegistry {
    const proto: QuicProto
    const queue: nat
    var frames: seq<NewCidFrame>

    constructor (proto: QuicProto, queue: nat)
      ensures this.proto == proto && this.queue == queue && frames == []
    {
      this.proto, this.queue := proto, queue;
      frames := [];
    }

    method GenUniqueCid(draws: seq<ConnectionId>) returns (cid: ConnectionId)
      requires HasVacant(proto.routerTable, draws)
      modifies proto
      ensures cid == FirstVacant(old(proto.routerTable), draws)
      ensures proto.routerTable == old(proto.routerTable)[cid := queue]
    {
      var i := 0;
      while draws[i] in proto.routerTable
        invariant 0 <= i < |draws| && proto.routerTable == old(proto.routerTable)
        invariant HasVacant(proto.routerTable, draws[i..])
        invariant FirstVacant(proto.routerTable, draws[i..]) == FirstVacant(proto.routerTable, draws)
        decreases |draws| - i
      {
        assert draws[i..][1..] == draws[i + 1..];
        i := i + 1;
      }
      cid := draws[i];
      proto.routerTable := proto.routerTable[cid := queue];
    }

    method RetireCid(cid: ConnectionId)
      modifies proto
      ensures proto.routerTable == old(proto.routerTable) - {cid}
    {
      proto.routerTable := proto.routerTable - {cid};
    }

    method SendFrame(frame: NewCidFrame)
      modifies this
      ensures frames == old(frames) + [frame]
    {
      frames := frames + [frame];
    }
  }

  class LocalCids {
    var cidDeque: IndexDeque<Option<Identity>>
    const issuedCids: RouterRegistry
    var activeCidLimit: Option<nat>

    ghost function View(): Local
      reads this, issuedCids
    {
      Local(cidDeque, activeCidLimit, issuedCids.frames)
    }

    ghost function Table(): Table
      reads issuedCids.proto
    {
      issuedCids.proto.routerTable
    }

    constructor (scid: ConnectionId, issuedCids: RouterRegistry, draw: Draw)
      requires issuedCids.frames == [] && HasVacant(issuedCids.proto.routerTable, draw.candidates)
      modifies issuedCids, issuedCids.proto
      ensures this.issuedCids == issuedCids
      ensures var minted := Minted(old(issuedCids.proto.routerTable), draw);
              && View() == New(scid, minted)
              && Table() == old(issuedCids.proto.routerTable)[minted.cid := issuedCids.queue]
    {
      this.issuedCids := issuedCids;
      var cid := issuedCids.GenUniqueCid(draw.candidates);
      issuedCids.SendFrame(NewCidFrame(1, 0, cid, draw.token));
      cidDeque := IndexDeque(0, [Some(Identity(scid, [])), Some(Identity(cid, draw.token))]);
      activeCidLimit := None;
    }

    method IssueNewCid(draw: Draw)
      requires cidDeque.Largest() <= VARINT_MAX && HasVacant(Table(), draw.candidates)
      modifies this`cidDeque, issuedCids, issuedCids.proto
      ensures var minted := Minted(old(Table()), draw);
              View() == Issue(old(View()), minted) && Table() == old(Table())[minted.cid := issuedCids.queue]
    {
      var sequence, retirePriorTo := cidDeque.Largest(), cidDeque.offset;
      var cid := issuedCids.GenUniqueCid(draw.candidates);
      issuedCids.SendFrame(NewCidFrame(sequence, retirePriorTo, cid, draw.token));
      cidDeque := cidDeque.PushBack(Some(Identity(cid, draw.token)));
    }

    method SetLimit(limit: nat, draws: seq<Draw>) returns (r: Result<(), LocalError>)
      requires activeCidLimit.None?
      requires 2 <= limit ==>
                 && |draws| == Shortfall(View(), limit) && Max(cidDeque.Largest(), limit) <= VARINT_MAX + 1
                 && Supplies(Table(), issuedCids.queue, draws)
      modifies this, issuedCids, issuedCids.proto
      ensures r == SetLimitResult(limit)
      ensures r.Failure? ==> View() == old(View()) && Table() == old(Table())
      ensures r.Success? ==>
                var minted := AllMinted(old(Table()), issuedCids.queue, draws);
                && View() == LocalCidSpec.SetLimit(old(View()), limit, minted)
                && Table() == Register(old(Table()), issuedCids.queue, minted)
    {
      if limit < 2 {
        return Failure(TransportParameter(limit));
      }
      ghost var minted := AllMinted(Table(), issuedCids.queue, draws);
      ghost var all := IssueAll(View(), minted);
      ghost var routes := Register(Table(), issuedCids.queue, minted);
      var i := 0;
      while i < |draws|
        invariant 0 <= i <= |draws|
        invariant cidDeque.Largest() + (|draws| - i) <= VARINT_MAX + 1
        invariant Supplies(Table(), issuedCids.queue, draws[i..])
        invariant AllMinted(Table(), issuedCids.queue, draws[i..]) == minted[i..]
        invariant IssueAll(View(), minted[i..]) == all
        invariant Register(Table(), issuedCids.queue, minted[i..]) == routes
      {
        assert draws[i..][1..] == draws[i + 1..] && minted[i..][1..] == minted[i + 1..];
        IssueNewCid(draws[i]);
        i := i + 1;
      }
      activeCidLimit := Some(limit);
      r := Success(());
    }

    method RecvRetireCidFrame(sequence: nat, draw: Draw) returns (r: Result<(), LocalError>)
      requires Unretired(View(), sequence) ==>
                 cidDeque.Largest() <= VARINT_MAX && HasVacant(Table(), draw.candidates)
      modifies this`cidDeque, issuedCids, issuedCids.proto
      ensures r == RecvRetireResult(old(View()), sequence)
      ensures if old(Unretired(View(), sequence)) then
                var minted := Minted(old(Table()), draw);
                && View() == RecvRetire(old(View()), sequence, minted)
                && Table() == RetireTable(old(Table()), issuedCids.queue, old(View()), sequence, minted)
              else View() == old(View()) && Table() == old(Table())
    {
      if sequence >= cidDeque.Largest() {
        return Failure(RetireUnissued(sequence));
      }
      var slot := cidDeque.Get(sequence);
      if slot.Some? && slot.value.Some? {
        var items := cidDeque.items[sequence - cidDeque.offset := None];
        var n := 0;
        while n < |items| && items[n].None?
          invariant 0 <= n <= |items|
          invariant n + LeadingNones(items[n..]) == LeadingNones(items)
        {
          assert items[n..][1..] == items[n + 1..];
          n := n + 1;
        }
        cidDeque := IndexDeque(cidDeque.offset, items).Advance(n);
        IssueNewCid(draw);
        issuedCids.RetireCid(slot.value.value.cid);
      }
      r := Success(());
    }

    method Clear()
      modifies issuedCids.proto
      ensures Table() == ClearTable(old(Table()), old(View()))
    {
      ghost var l := View();
      var i := 0;
      while i < |cidDeque.items|
        invariant 0 <= i <= |cidDeque.items| && View() == l
        invariant Table() == old(Table()) - LiveCidsUpTo(l, l.deque.offset + i)
      {
        ghost var s := l.deque.offset + i;
        assert l.deque.At(s) == cidDeque.items[i];
        if cidDeque.items[i].Some? {
          assert Unretired(l, s) && CidOf(l, s) == cidDeque.items[i].value.cid;
          assert LiveCidsUpTo(l, s + 1) == LiveCidsUpTo(l, s) + {cidDeque.items[i].value.cid};
          issuedCids.RetireCid(cidDeque.items[i].value.cid);
        } else {
          assert LiveCidsUpTo(l, s + 1) == LiveCidsUpTo(l, s);
        }
        i := i + 1;
      }
    }

    ghost function LiveCidsUpTo(l: Local, n: nat): set<ConnectionId> {
      set s: nat | l.deque.offset <= s < n && Unretired(l, s) :: CidOf(l, s)
    }
  }
}
