/** The flow controllers and the credit object. */
module Flow {
  import opened Prelude
  import Spec = FlowSpec

  datatype FlowError = ConnectionError | FlowControlError

  class SendController {
    var sentData: nat
    var maxData: nat
    var blocking: bool
    var open: bool
    var blocked: seq<nat>
    ghost var credits: seq<Spec.Credit>
    ghost var committed: nat

    ghost function View(): Spec.Sender
      reads this
    {
      Spec.Sender(sentData, maxData, blocking, open, blocked, credits, committed)
    }

    ghost predicate Valid()
      reads this
    {
      Spec.SenderOk(View())
    }

    constructor (initial: nat)
      ensures Valid() && View() == Spec.NewSender(initial)
    {
      sentData, maxData, blocking, open, blocked := 0, initial, false, true, [];
      credits, committed := [], 0;
    }

    method IncreaseLimit(max: nat)
      requires Valid()
      modifies this
      ensures Valid() && View() == Spec.IncreaseLimit(old(View()), max)
    {
      if open && max > maxData {
        maxData, blocking := max, false;
      }
    }

    /** Takes the bytes out of the window and reports a full window once. */
    method Reserve(quota: nat) returns (available: nat)
      requires Valid() && open
      modifies this`sentData, this`blocking, this`blocked, this`credits
      ensures Valid() && available == Min(maxData - old(sentData), quota)
      ensures View() == Spec.Lend(old(View()), quota)
    {
      ghost var s := View();
      assert 0 <= Spec.Available(s, quota) && Spec.SenderOk(Spec.Lend(s, quota)) by { Spec.LendPreserves(s, quota); }
      available := Min(maxData - sentData, quota);
      sentData := sentData + available;
      if sentData == maxData && !blocking {
        blocking := true;
        blocked := blocked + [maxData];
      }
      credits := credits + [Spec.Credit(available, true)];
      assert View() == Spec.Lend(s, quota);
    }

    method Lend(quota: nat) returns (r: Result<Credit, FlowError>)
      requires Valid()
      modifies this`sentData, this`blocking, this`blocked, this`credits
      ensures Valid()
      ensures if old(open) then
                && View() == Spec.Lend(old(View()), quota)
                && r.Success? && fresh(r.value) && r.value.Owned(this) && r.value.id == |old(credits)|
                && r.value.available == Min(maxData - old(sentData), quota)
              else r == Failure(ConnectionError) && View() == old(View())
    {
      if !open {
        return Failure(ConnectionError);
      }
      var available := Reserve(quota);
      var credit := new Credit(available, this, |credits| - 1);
      r := Success(credit);
    }

    method OnError()
      requires Valid()
      modifies this
      ensures Valid() && View() == Spec.OnError(old(View()))
    {
      open := false;
    }
  }

  class Credit {
    var available: nat
    const controller: SendController
    ghost const id: nat

    constructor (available: nat, controller: SendController, ghost id: nat)
      ensures this.available == available && this.controller == controller && this.id == id
    {
      this.available, this.controller, this.id := available, controller, id;
    }

    /** A live credit of this controller. */
    ghost predicate Owned(c: SendController)
      reads this, c
    {
      controller == c && id < |c.credits| && c.credits[id] == Spec.Credit(available, true)
    }

    method PostSent(amount: nat)
      requires controller.Valid() && Owned(controller) && amount <= available
      modifies this`available, controller`credits, controller`committed
      ensures controller.Valid() && Owned(controller)
      ensures controller.View() == Spec.PostSent(old(controller.View()), id, amount)
    {
      Spec.PostPreserves(controller.View(), id, amount);
      available := available - amount;
      controller.credits := controller.credits[id := Spec.Credit(available, true)];
      controller.committed := controller.committed + amount;
    }

    method Drop()
      requires controller.Valid() && Owned(controller)
      modifies controller`sentData, controller`credits
      ensures controller.Valid()
      ensures controller.View() == Spec.Refund(old(controller.View()), id)
    {
      Spec.RefundPreserves(controller.View(), id);
      if controller.open {
        controller.sentData := controller.sentData - available;
      }
      controller.credits := controller.credits[id := controller.credits[id].(live := false)];
    }
  }

  class RecvController {
    var rcvdData: nat
    var maxData: nat
    const step: nat
    var adverts: seq<nat>

    ghost function View(): Spec.Receiver
      reads this
    {
      Spec.Receiver(rcvdData, maxData, step, adverts)
    }

    constructor (initial: nat)
      ensures View() == Spec.NewReceiver(initial)
    {
      rcvdData, maxData, step, adverts := 0, initial, initial / 2, [];
    }

    method OnNewRcvd(amount: nat) returns (r: Result<nat, FlowError>)
      modifies this
      ensures View() == Spec.OnNewRcvd(old(View()), amount)
      ensures r == if Spec.Overflows(old(View()), amount) then Failure(FlowControlError) else Success(amount)
    {
      rcvdData := rcvdData + amount;
      if rcvdData <= maxData {
        if rcvdData + step >= maxData {
          maxData := maxData + step;
          adverts := adverts + [maxData];
        }
        return Success(amount);
      }
      return Failure(FlowControlError);
    }
  }
}
