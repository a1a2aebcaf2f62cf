/** One acceptor of one slot: libndnpaxos/acceptor.cpp. */
module Acceptors {
  import opened PaxosTypes

  datatype AcceptorState = AcceptorState(maxProposed: nat, maxAccepted: nat, maxValue: Option<PropValue>)

  const FRESH_ACCEPTOR := AcceptorState(0, 0, None)

  /** A prepare request is granted only above every ballot seen. */
  function PrepareNext(a: AcceptorState, ballot: nat): AcceptorState {
    if ballot > a.maxProposed then a.(maxProposed := ballot) else a
  }

  function PromiseFor(a: AcceptorState, me: nat, ballot: nat): PromiseAck {
    var granted := ballot > a.maxProposed;
    PromiseAck(me, ballot, granted, a.maxAccepted, if granted then a.maxValue else None)
  }

  /** A value with the id already stored is not copied again. */
  function AcceptNext(a: AcceptorState, ballot: nat, value: PropValue): AcceptorState {
    if ballot >= a.maxProposed then
      AcceptorState(ballot, ballot,
        if a.maxValue.Some? && a.maxValue.value.id == value.id then a.maxValue else Some(value))
    else a
  }

  function AcceptAckFor(a: AcceptorState, me: nat, ballot: nat): AcceptAck {
    AcceptAck(me, ballot, ballot >= a.maxProposed)
  }

  class Acceptor {
    const whoami: nat
    var maxProposed: nat
    var maxAccepted: nat
    var maxValue: Option<PropValue>

    ghost function State(): AcceptorState
      reads this
    {
      AcceptorState(maxProposed, maxAccepted, maxValue)
    }

    constructor (whoami: nat)
      ensures State() == FRESH_ACCEPTOR && this.whoami == whoami
    {
      this.whoami := whoami;
      maxProposed, maxAccepted, maxValue := 0, 0, None;
    }

    method HandleMsgPrepare(ballot: nat) returns (ack: PromiseAck)
      modifies this
      ensures ack == PromiseFor(old(State()), whoami, ballot)
      ensures State() == PrepareNext(old(State()), ballot)
      ensures ack.reply <==> ballot > old(maxProposed)
      ensures ack.maxBallot == old(maxAccepted) && ack.maxValue == if ack.reply then old(maxValue) else None
      ensures maxProposed == (if ack.reply then ballot else old(maxProposed))
    {
      var reply, value := false, None;
      var maxBallot := maxAccepted;
      if ballot > maxProposed {
        maxProposed := ballot;
        reply := true;
        if maxValue.Some? {
          value := maxValue;
        }
      }
      ack := PromiseAck(whoami, ballot, reply, maxBallot, value);
    }

    method HandleMsgAccept(ballot: nat, value: PropValue) returns (ack: AcceptAck)
      modifies this
      ensures ack == AcceptAckFor(old(State()), whoami, ballot)
      ensures State() == AcceptNext(old(State()), ballot, value)
      ensures ack.reply <==> ballot >= old(maxProposed)
      ensures ack.reply ==> maxProposed == maxAccepted == ballot && maxValue.Some? && maxValue.value.id == value.id
      ensures ack.reply && maxValue != old(maxValue) ==> maxValue == Some(value)
      ensures ack.reply && old(maxValue).Some? && old(maxValue).value.id == value.id ==> maxValue == old(maxValue)
      ensures !ack.reply ==> State() == old(State())
    {
      var reply := false;
      if ballot >= maxProposed {
        maxProposed := ballot;
        maxAccepted := ballot;
        if maxValue.None? || maxValue.value.id != value.id {
          maxValue := Some(value);
        }
        reply := true;
      }
      ack := AcceptAck(whoami, ballot, reply);
    }

    method UpdateMaxProposed(ballot: nat)
      modifies this
      ensures State() == old(State()).(maxProposed := ballot)
    {
      maxProposed := ballot;
    }
  }
}
