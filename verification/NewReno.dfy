/** The NewReno object. `trace` records its callbacks; its fields are what those callbacks make of them. */
module NewRenos {
  import opened Prelude
  import opened PacketSpec
  import Spec = NewRenoSpec

  lemma {:induction false} TakenPrefix(bytes: nat, ps: seq<SentPacket>, n: nat)
    requires n <= |ps| && Spec.Taken(bytes, ps).Some?
    ensures Spec.Taken(bytes, ps[..n]).Some?
    decreases |ps|
  {
    if n < |ps| {
      TakenPrefix(bytes, ps[..|ps| - 1], n);
      assert ps[..|ps| - 1][..n] == ps[..n];
    } else {
      assert ps[..n] == ps;
    }
  }

  class NewReno {
    const maxDatagramSize: nat
    var ceCounters: seq<nat>
    var bytesInFlight: nat
    var congestionWindow: nat
    var recoveryStart: Option<int>
    var ssthresh: nat
    ghost var trace: seq<Callback>

    ghost function View(): Spec.Reno
      reads this
    {
      Spec.Reno(bytesInFlight, congestionWindow, ssthresh, recoveryStart, ceCounters)
    }

    ghost predicate Valid()
      reads this
    {
      && Spec.StartsAtFloor(maxDatagramSize)
      && Spec.ApplyAll(Spec.New(maxDatagramSize), maxDatagramSize, trace) == Some(View())
    }

    /** The first window is computed in 16 bits and may wrap around. */
    constructor (maxDatagramSize: nat)
      requires maxDatagramSize < 0x1_0000
      ensures View() == Spec.New(maxDatagramSize) && trace == [] && this.maxDatagramSize == maxDatagramSize
      ensures Valid() <==> Spec.StartsAtFloor(maxDatagramSize)
    {
      this.maxDatagramSize := maxDatagramSize;
      ceCounters := [0, 0, 0];
      bytesInFlight := 0;
      congestionWindow := Min(maxDatagramSize * 10 % 0x1_0000, Max(maxDatagramSize * 2 % 0x1_0000, 14600));
      recoveryStart := None;
      ssthresh := Spec.INFINITE_SSTHRESH;
      trace := [];
    }

    lemma AboveFloor()
      requires Valid()
      ensures Spec.Floor(View(), maxDatagramSize)
    {
      Spec.FloorKeptByAll(Spec.New(maxDatagramSize), maxDatagramSize, trace);
    }

    /** Appends the callback to the trace once the fields have followed it. */
    ghost method Record(call: Callback, before: Spec.Reno)
      requires Spec.StartsAtFloor(maxDatagramSize)
      requires Spec.ApplyAll(Spec.New(maxDatagramSize), maxDatagramSize, trace) == Some(before)
      requires Spec.Apply(before, maxDatagramSize, call) == Some(View())
      modifies this`trace
      ensures Valid() && trace == old(trace) + [call]
    {
      assert (trace + [call])[..|trace|] == trace;
      trace := trace + [call];
    }

    method OnPacketSentCc(p: SentPacket)
      requires Valid()
      modifies this
      ensures Valid() && trace == old(trace) + [PacketSent(p)]
    {
      ghost var before := View();
      bytesInFlight := bytesInFlight + p.sentBytes;
      Record(PacketSent(p), before);
    }

    predicate InCongestionRecovery(timeSent: int)
      reads this
    {
      recoveryStart.Some? && timeSent <= recoveryStart.value
    }

    method OnPacketAcked(p: SentPacket)
      requires Valid()
      modifies this
      ensures Valid() && trace == old(trace) + [PacketAcked(p)]
    {
      AboveFloor();
      ghost var before := View();
      if p.countForCc {
        if p.state == Inflight {
          bytesInFlight := Spec.Monus(bytesInFlight, p.sentBytes);
        }
        if !InCongestionRecovery(p.timeSent) {
          if congestionWindow < ssthresh {
            congestionWindow := congestionWindow + p.sentBytes;
          } else {
            congestionWindow := congestionWindow + Spec.Growth(maxDatagramSize, p.sentBytes, congestionWindow);
          }
        }
      }
      Record(PacketAcked(p), before);
    }

    method OnCongestionEvent(timeSent: int, now: int)
      requires Spec.Floor(View(), maxDatagramSize)
      modifies this`recoveryStart, this`ssthresh, this`congestionWindow
      ensures Spec.CongestionEvent(old(View()), maxDatagramSize, timeSent, now) == Some(View())
    {
      if InCongestionRecovery(timeSent) {
        return;
      }
      recoveryStart := Some(now);
      ssthresh := congestionWindow - maxDatagramSize;
      congestionWindow := Max(ssthresh, 2 * maxDatagramSize);
    }

    method ProcessEcn(space: nat, ce: nat, timeSent: int, now: int)
      requires Valid()
      modifies this
      ensures Valid() && trace == old(trace) + [Ecn(space, ce, timeSent, now)]
    {
      AboveFloor();
      ghost var before := View();
      if space < |ceCounters| && ceCounters[space] < ce {
        ceCounters := ceCounters[space := ce];
        OnCongestionEvent(timeSent, now);
      }
      Record(Ecn(space, ce, timeSent, now), before);
    }

    method OnPacketsLost(ps: seq<SentPacket>, persistent: bool, now: int)
      requires Valid()
      modifies this
      ensures Valid() && trace == old(trace) + [PacketsLost(ps, persistent, now)]
    {
      AboveFloor();
      ghost var before := View();
      var lastLoss: Option<int> := None;
      for i := 0 to |ps|
        invariant View() == before.(bytes := Spec.Shed(before.bytes, ps[..i]))
        invariant lastLoss == Spec.LastLoss(ps[..i])
        invariant trace == old(trace)
      {
        assert ps[..i + 1][..i] == ps[..i];
        if ps[i].countForCc {
          bytesInFlight := Spec.Monus(bytesInFlight, ps[i].sentBytes);
          lastLoss := Some(if lastLoss.Some? then Max(lastLoss.value, ps[i].timeSent) else ps[i].timeSent);
        }
      }
      assert ps[..|ps|] == ps;
      if lastLoss.Some? {
        OnCongestionEvent(lastLoss.value, now);
      }
      if persistent {
        ssthresh := congestionWindow / 2;
        congestionWindow := Max(ssthresh, 2 * maxDatagramSize);
        recoveryStart := None;
      }
      Record(PacketsLost(ps, persistent, now), before);
    }

    /** The subtraction is unchecked in the source: the caller owes that it does not underflow. */
    method RemoveFromBytesInFlight(ps: seq<SentPacket>)
      requires Valid() && Spec.Taken(bytesInFlight, ps).Some?
      modifies this
      ensures Valid() && trace == old(trace) + [Removed(ps)]
    {
      ghost var before := View();
      assert ps[..|ps|] == ps;
      for i := 0 to |ps|
        invariant Spec.Taken(before.bytes, ps[..i]) == Some(bytesInFlight)
        invariant View() == before.(bytes := bytesInFlight)
        invariant trace == old(trace)
      {
        assert ps[..i + 1][..i] == ps[..i];
        TakenPrefix(before.bytes, ps, i + 1);
        if ps[i].countForCc && ps[i].state != Retransmitted {
          bytesInFlight := bytesInFlight - ps[i].sentBytes;
        }
      }
      Record(Removed(ps), before);
    }
  }
}
