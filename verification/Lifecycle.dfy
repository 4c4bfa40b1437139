/** The state object and the event broker, each call under arbitrary interference by other threads. */
module Lifecycle {
  import opened Prelude
  import opened ConnState

  /** An atomic byte. Before each access other threads may have stored larger codes. */
  class AtomicCode {
    var code: nat

    constructor ()
      ensures code == 0
    {
      code := 0;
    }

    method Interfere()
      modifies this
      ensures old(code) <= code
    {
      var other: nat := *;
      if code < other {
        code := other;
      }
    }

    method Load() returns (c: nat)
      modifies this
      ensures old(code) <= code == c
    {
      Interfere();
      c := code;
    }

    method CompareExchange(expected: nat, desired: nat) returns (r: Result<nat, nat>)
      modifies this
      ensures r.Success? ==> r.value == expected && old(code) <= expected && code == desired
      ensures r.Failure? ==> r.error == code && old(code) <= code && code != expected
    {
      Interfere();
      if code == expected {
        code := desired;
        return Success(expected);
      }
      return Failure(code);
    }
  }

  class ConnectionState {
    const state: AtomicCode
    var handshaked: nat
    var handshakedOpen: bool
    var terminated: nat

    constructor ()
      ensures state.code == 0 && handshaked == 0 && handshakedOpen && terminated == 0 && fresh(state)
    {
      state := new AtomicCode();
      handshaked, handshakedOpen, terminated := 0, true, 0;
    }

    method TryEntryAttempted() returns (first: bool)
      modifies state
      ensures first ==> old(state.code) == 0 && state.code == Encode(Attempted)
      ensures !first ==> old(state.code) <= state.code && 0 < state.code
    {
      var r := state.CompareExchange(0, Encode(Attempted));
      first := r.Success?;
    }

    /** The state a code stands for; the initial one counts as attempted. */
    static function StateOf(code: nat): State {
      if Decode(code).Some? then Decode(code).value else Attempted
    }

    /**
     * Stores the new code if it is larger than the one in force, whatever other threads do
     * meanwhile: each failed exchange has seen a larger code, so the loop ends.
     */
    method Update(s: State) returns (r: Option<State>)
      modifies this, state
      ensures r.Some? ==> state.code == Encode(s) && old(state.code) < Encode(s)
      ensures r.Some? ==> exists seen: nat :: old(state.code) <= seen < Encode(s) && r.value == StateOf(seen)
      ensures r.None? ==> Encode(s) <= state.code && old(state.code) <= state.code
      ensures handshaked == old(handshaked) + if r.Some? && s == HandshakeConfirmed then PERMITS else 0
      ensures terminated == old(terminated) + if r.Some? && (s == Closing || s == Draining) then PERMITS else 0
      ensures handshakedOpen == (old(handshakedOpen) && !(r.Some? && (s == Closing || s == Draining)))
    {
      var desired := Encode(s);
      var seen := state.Load();
      while true
        invariant old(state.code) <= seen <= state.code
        invariant handshaked == old(handshaked) && terminated == old(terminated)
        invariant handshakedOpen == old(handshakedOpen)
        decreases desired - seen
      {
        if desired <= seen {
          return None;
        }
        var exchanged := state.CompareExchange(seen, desired);
        match exchanged
        case Success(_) =>
          match s {
            case HandshakeConfirmed => handshaked := handshaked + PERMITS;
            case Closing => handshakedOpen, terminated := false, terminated + PERMITS;
            case Draining => handshakedOpen, terminated := false, terminated + PERMITS;
            case _ =>
          }
          return Some(StateOf(seen));
        case Failure(current) => seen := current;
      }
    }
  }

  class EventBroker {
    const connState: ConnectionState
    var raw: seq<Event>

    constructor (connState: ConnectionState)
      ensures this.connState == connState && raw == []
    {
      this.connState, raw := connState, [];
    }

    /** Forwards an event unless it drives the connection to a state it has passed already. */
    method Emit(e: Event)
      modifies this, connState, connState.state
      ensures raw == old(raw) || raw == old(raw) + [e]
      ensures !Drives(e) || e == Terminated ==> raw == old(raw) + [e]
      ensures Drives(e) ==> Code(e) <= connState.state.code
      ensures Drives(e) && e != Terminated && raw != old(raw) ==>
                old(connState.state.code) < Code(e) && connState.state.code == Code(e)
      ensures connState.handshaked
           == old(connState.handshaked) + if raw != old(raw) && e == Handshaked then PERMITS else 0
      ensures connState.terminated
           == old(connState.terminated) + if raw != old(raw) && Terminates(e) then PERMITS else 0
      ensures connState.handshakedOpen == (old(connState.handshakedOpen) && !(raw != old(raw) && Terminates(e)))
    {
      if Drives(e) {
        var previous := connState.Update(Target(e).value);
        if previous.None? && e != Terminated {
          return;
        }
      }
      raw := raw + [e];
    }
  }
}
