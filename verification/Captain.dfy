/** One node of the system, updating its fields in place: libndnpaxos/captain.cpp. */
module Captains {
  import opened PaxosTypes
  import opened Acceptors
  import opened Proposers
  import opened CaptainSpec

  class ProposerInfo {
    const tryTime: nat
    const currProposer: Proposer
    var status: Status

    ghost function Info(): InfoState
      reads this, currProposer
    {
      InfoState(tryTime, currProposer.State(), status)
    }

    constructor (tryTime: nat, proposer: Proposer, status: Status)
      ensures this.tryTime == tryTime && currProposer == proposer && this.status == status
    {
      this.tryTime, currProposer, this.status := tryTime, proposer, status;
    }
  }

  // ---------------------------------------------------------------- the values behind the objects

  ghost function AcceptorStates(acceptors: seq<Acceptor?>): (r: seq<AcceptorState>)
    reads set i | 0 <= i < |acceptors| && acceptors[i] != null :: acceptors[i]
    ensures |r| == |acceptors|
    ensures forall i :: 0 <= i < |acceptors| ==>
      r[i] == (if acceptors[i] == null then FRESH_ACCEPTOR else acceptors[i].State())
  {
    if acceptors == [] then []
    else
      var last := acceptors[|acceptors| - 1];
      AcceptorStates(acceptors[..|acceptors| - 1]) + [if last == null then FRESH_ACCEPTOR else last.State()]
  }

  ghost function InfoStates(infos: map<nat, ProposerInfo>): map<nat, InfoState>
    reads infos.Values, set s | s in infos :: infos[s].currProposer
  {
    map s | s in infos :: infos[s].Info()
  }

  /** Slot 0 has no acceptor; every other acceptor is an object of its own. */
  ghost predicate AcceptorsValid(view: View, acceptors: seq<Acceptor?>) {
    |acceptors| >= 1 && acceptors[0] == null &&
    (forall i :: 1 <= i < |acceptors| ==> acceptors[i] != null && acceptors[i].whoami == view.whoami) &&
    (forall i, j :: 1 <= i < j < |acceptors| ==> acceptors[i] != acceptors[j])
  }

  /** Every proposer is an object of its own. */
  ghost predicate ProposersDistinct(view: View, infos: map<nat, ProposerInfo>) {
    (forall s :: s in infos ==> infos[s].currProposer.view == view) &&
    (forall s, t :: s in infos && t in infos && s != t ==>
      infos[s] != infos[t] && infos[s].currProposer != infos[t].currProposer)
  }

  ghost predicate AllFiled(infos: map<nat, InfoState>, n: nat) {
    forall s :: s in infos ==> FiledByNode(infos[s].proposer, n)
  }

  ghost predicate ProposersValid(view: View, infos: map<nat, ProposerInfo>)
    reads infos.Values, set s | s in infos :: infos[s].currProposer
  {
    ProposersDistinct(view, infos) && AllFiled(InfoStates(infos), view.nodes)
  }

  lemma NoAcceptors(view: View, acceptors: seq<Acceptor?>)
    requires acceptors == [null] && !view.mode.Multi?
    ensures AcceptorsValid(view, acceptors) && AcceptorStates(acceptors) == InitialAcceptors(view)
  {}

  lemma InfoAdded(infos: map<nat, ProposerInfo>, slot: nat, info: ProposerInfo)
    ensures InfoStates(infos[slot := info]) == InfoStates(infos)[slot := info.Info()]
  {}

  lemma InfoCount(infos: map<nat, ProposerInfo>)
    ensures |InfoStates(infos)| == |infos|
  {
    assert InfoStates(infos).Keys == infos.Keys;
  }

  lemma InfoKeys(infos: map<nat, ProposerInfo>)
    ensures InfoStates(infos).Keys == infos.Keys
  {}

  lemma InfoAt(infos: map<nat, ProposerInfo>, slot: nat)
    requires slot in infos
    ensures slot in InfoStates(infos) && InfoStates(infos)[slot] == infos[slot].Info()
  {}

  lemma ContinueHasValue(view: View, p: ProposerState, m: PromiseAck)
    ensures AfterPromise(view, p, m).1 == CONTINUE ==> AfterPromise(view, p, m).0.currValue.Some?
  {}

  lemma ProposerAdded(view: View, infos: map<nat, ProposerInfo>, slot: nat, info: ProposerInfo)
    requires ProposersValid(view, infos) && info.currProposer.view == view
    requires FiledByNode(info.currProposer.State(), view.nodes)
    requires forall s :: s in infos ==> infos[s] != info && infos[s].currProposer != info.currProposer
    ensures ProposersValid(view, infos[slot := info])
  {
    hide FiledByNode;
    InfoAdded(infos, slot, info);
    assert info.Info().proposer == info.currProposer.State();
  }

  /** If only the proposer of one slot changed, only its entry did. */
  lemma OneProposerMoved(view: View, infos: map<nat, ProposerInfo>, before: map<nat, InfoState>, slot: nat)
    requires ProposersDistinct(view, infos) && AllFiled(before, view.nodes) && slot in infos
    requires before.Keys == infos.Keys
    requires forall s :: s in infos && s != slot ==> infos[s].Info() == before[s]
    requires FiledByNode(infos[slot].currProposer.State(), view.nodes)
    ensures ProposersValid(view, infos) && InfoStates(infos) == before[slot := infos[slot].Info()]
  {
    hide FiledByNode;
  }

  class Captain {
    const view: View
    var work: bool
    var maxChosen: nat
    var maxChosenWithoutHole: nat
    var maxSlot: nat
    var valueId: nat
    var acceptors: seq<Acceptor?>
    var proposers: map<nat, ProposerInfo>
    var chosenValues: seq<Option<PropValue>>
    var toCommit: seq<PropValue>
    /** What was handed to the network, to the callback and to the clients. */
    var outbox: seq<Message>
    var callbacks: seq<PropValue>
    var informed: seq<PropValue>
    ghost var committed: seq<PropValue>
    ghost var proposals: seq<Proposal>
    ghost var issued: seq<PropValue>

    ghost function Parts(): set<object>
      reads this
    {
      (set i | 0 <= i < |acceptors| && acceptors[i] != null :: acceptors[i]) +
      (set s | s in proposers :: proposers[s]) + (set s | s in proposers :: proposers[s].currProposer)
    }

    ghost function State(): CaptainState
      reads this, Parts()
    {
      CaptainState(work, maxChosenWithoutHole, maxSlot, valueId, AcceptorStates(acceptors), InfoStates(proposers),
        chosenValues, toCommit, callbacks, informed, committed, proposals, issued)
    }

    ghost predicate Valid()
      reads this, Parts()
    {
      AcceptorsValid(view, acceptors) && ProposersValid(view, proposers) &&
      Numbered() &&
      |chosenValues| == maxChosen + 1 && maxChosenWithoutHole <= maxChosen
    }

    // -------------------------------------------------------------- start and stop

    constructor (view: View)
      ensures this.view == view && Valid() && fresh(Parts())
      ensures State() == InitialCaptain(view) && outbox == []
    {
      hide AcceptorStates, InitialAcceptors, AcceptorsValid;
      this.view := view;
      work := true;
      maxChosen, maxChosenWithoutHole, maxSlot, valueId := 0, 0, 0, view.whoami;
      acceptors, proposers, chosenValues := [null], map[], [None];
      toCommit, outbox, callbacks, informed := [], [], [], [];
      committed, proposals, issued := [], [], [];
      new;
      if view.mode.Multi? {
        PresetAcceptors();
      } else {
        NoAcceptors(view, acceptors);
      }
      assert InfoStates(proposers) == map[];
    }

    /** Every acceptor of the leased slots starts as if the master had prepared. */
    method PresetAcceptors()
      requires acceptors == [null] && view.mode.Multi?
      modifies this`acceptors
      ensures AcceptorsValid(view, acceptors) && AcceptorStates(acceptors) == InitialAcceptors(view)
      ensures |acceptors| >= 1 && acceptors[0] == null && forall j :: 1 <= j < |acceptors| ==> fresh(acceptors[j])
    {
      hide AcceptorStates;
      var maxId := NODE_SPAN + view.master;
      var i := 1;
      while i <= view.length
        invariant 1 <= i <= view.length + 1
        invariant |acceptors| == i && AcceptorsValid(view, acceptors)
        invariant forall j :: 1 <= j < i ==>
          fresh(acceptors[j]) && acceptors[j].State() == FRESH_ACCEPTOR.(maxProposed := maxId)
      {
        var a := new Acceptor(view.whoami);
        acceptors := acceptors + [a];
        acceptors[i].UpdateMaxProposed(maxId);
        i := i + 1;
      }
      assert AcceptorStates(acceptors) == InitialAcceptors(view);
    }

    method Crash()
      requires Valid()
      modifies this`work
      ensures Valid() && State() == old(State()).(work := false)
    {
      hide AcceptorStates, InfoStates, AcceptorsValid, ProposersValid;
      work := false;
    }

    // -------------------------------------------------------------- the log

    /** Moves the frontier over the filled slots and calls back once for each. */
    method AddCallback()
      requires |chosenValues| == maxChosen + 1 && maxChosenWithoutHole <= maxChosen
      modifies this`maxChosenWithoutHole, this`callbacks
      ensures maxChosenWithoutHole == Frontier(chosenValues, old(maxChosenWithoutHole)) <= maxChosen
      ensures callbacks == old(callbacks) + Due(chosenValues, old(maxChosenWithoutHole))
    {
      ghost var h0 := maxChosenWithoutHole;
      while maxChosenWithoutHole < maxChosen
        invariant h0 <= maxChosenWithoutHole <= maxChosen
        invariant Frontier(chosenValues, maxChosenWithoutHole) == Frontier(chosenValues, h0)
        invariant callbacks + Due(chosenValues, maxChosenWithoutHole) == old(callbacks) + Due(chosenValues, h0)
        decreases maxChosen - maxChosenWithoutHole
      {
        var value := chosenValues[maxChosenWithoutHole + 1];
        if value.None? {
          break;
        }
        assert callbacks + Due(chosenValues, maxChosenWithoutHole) ==
          (callbacks + [value.value]) + Due(chosenValues, maxChosenWithoutHole + 1);
        maxChosenWithoutHole := maxChosenWithoutHole + 1;
        callbacks := callbacks + [value.value];
      }
    }

    /** Fills the slot unless it is filled, with holes before it if it is past the end. */
    method FillSlot(slot: nat, value: PropValue)
      requires |chosenValues| == maxChosen + 1
      modifies this`chosenValues, this`maxChosen
      ensures |chosenValues| == maxChosen + 1 && maxChosen >= old(maxChosen)
      ensures chosenValues == Filled(old(chosenValues), slot, value) && chosenValues[slot].Some?
    {
      ghost var log := chosenValues;
      if slot <= maxChosen {
        if chosenValues[slot].None? {
          chosenValues := chosenValues[slot := Some(value)];
        }
      } else {
        var i := maxChosen + 1;
        while i < slot
          invariant maxChosen + 1 <= i <= slot
          invariant chosenValues == log + seq(i - |log|, k => None)
        {
          chosenValues := chosenValues + [None];
          i := i + 1;
        }
        chosenValues := chosenValues + [Some(value)];
        maxChosen := slot;
      }
    }

    method AddChosenValue(slot: nat, value: PropValue)
      requires Valid()
      modifies this`chosenValues, this`maxChosen, this`maxChosenWithoutHole, this`callbacks
      ensures Valid() && State() == AddChosen(old(State()), slot, value)
      ensures slot < |chosenValues| && chosenValues[slot].Some?
    {
      hide Filled, Frontier, Due, AcceptorStates, InfoStates, AcceptorsValid, ProposersValid;
      FillSlot(slot, value);
      AddCallback();
    }

    // -------------------------------------------------------------- acceptors

    /** An acceptor for every slot up to `slot`. */
    method GrowAcceptors(slot: nat)
      requires AcceptorsValid(view, acceptors)
      modifies this`acceptors
      ensures AcceptorsValid(view, acceptors) && slot < |acceptors|
      ensures AcceptorStates(acceptors) == Grown(old(AcceptorStates(acceptors)), slot)
      ensures |old(acceptors)| <= |acceptors| && acceptors[..|old(acceptors)|] == old(acceptors)
      ensures forall j :: |old(acceptors)| <= j < |acceptors| ==> fresh(acceptors[j])
    {
      hide AcceptorStates;
      ghost var before, states := acceptors, AcceptorStates(acceptors);
      var i := |acceptors|;
      while i <= slot
        invariant |before| <= i == |acceptors| && (i <= slot + 1 || i == |before|)
        invariant AcceptorsValid(view, acceptors) && acceptors[..|before|] == before
        invariant forall j :: |before| <= j < i ==> fresh(acceptors[j]) && acceptors[j].State() == FRESH_ACCEPTOR
      {
        var a := new Acceptor(view.whoami);
        acceptors := acceptors + [a];
        i := i + 1;
      }
      assert forall j :: 0 <= j < |before| ==> acceptors[j] == before[j];
      assert AcceptorStates(acceptors) == Grown(states, slot);
    }

    ghost function AcceptorOf(slot: nat): set<object>
      reads this
    {
      if slot < |acceptors| && acceptors[slot] != null then {acceptors[slot]} else {}
    }

    method PrepareAt(slot: nat, ballot: nat) returns (ack: PromiseAck)
      requires AcceptorsValid(view, acceptors) && slot >= 1
      modifies this`acceptors, AcceptorOf(slot)
      ensures AcceptorsValid(view, acceptors)
      ensures forall j :: 0 <= j < |acceptors| ==>
        acceptors[j] == null || fresh(acceptors[j]) || acceptors[j] in old(acceptors)
      ensures var before := Grown(old(AcceptorStates(acceptors)), slot);
        AcceptorStates(acceptors) == before[slot := PrepareNext(before[slot], ballot)] &&
        ack == PromiseFor(before[slot], view.whoami, ballot)
    {
      hide AcceptorStates, Grown, PrepareNext, PromiseFor;
      GrowAcceptors(slot);
      ghost var before := AcceptorStates(acceptors);
      ack := acceptors[slot].HandleMsgPrepare(ballot);
      assert AcceptorStates(acceptors) == before[slot := acceptors[slot].State()];
    }

    method HandlePrepare(from: nat, slot: nat, ballot: nat)
      requires Valid() && slot >= 1
      modifies this`acceptors, this`outbox, AcceptorOf(slot)
      ensures Valid()
      ensures var o := OnPrepare(view, old(State()), from, slot, ballot);
        State() == o.state && outbox == old(outbox) + o.sent
    {
      hide AcceptorStates, InfoStates, ProposersValid, AcceptorsValid, Grown, PrepareNext, PromiseFor;
      ghost var c, infos := State(), InfoStates(proposers);
      var ack := PrepareAt(slot, ballot);
      assert InfoStates(proposers) == infos;
      outbox := outbox + [Promise(from, slot, ack)];
    }

    method AcceptAt(slot: nat, ballot: nat, value: PropValue) returns (ack: AcceptAck)
      requires AcceptorsValid(view, acceptors) && slot >= 1
      modifies this`acceptors, AcceptorOf(slot)
      ensures AcceptorsValid(view, acceptors)
      ensures forall j :: 0 <= j < |acceptors| ==>
        acceptors[j] == null || fresh(acceptors[j]) || acceptors[j] in old(acceptors)
      ensures var before := Grown(old(AcceptorStates(acceptors)), slot);
        AcceptorStates(acceptors) == before[slot := AcceptNext(before[slot], ballot, value)] &&
        ack == AcceptAckFor(before[slot], view.whoami, ballot)
    {
      hide AcceptorStates, Grown, AcceptNext, AcceptAckFor;
      GrowAcceptors(slot);
      ghost var before := AcceptorStates(acceptors);
      ack := acceptors[slot].HandleMsgAccept(ballot, value);
      assert AcceptorStates(acceptors) == before[slot := acceptors[slot].State()];
    }

    method HandleAccept(from: nat, slot: nat, ballot: nat, value: PropValue)
      requires Valid() && slot >= 1
      modifies this`acceptors, this`outbox, AcceptorOf(slot)
      ensures Valid()
      ensures var o := OnAccept(view, old(State()), from, slot, ballot, value);
        State() == o.state && outbox == old(outbox) + o.sent
    {
      hide AcceptorStates, InfoStates, ProposersValid, AcceptorsValid, Grown, AcceptNext, AcceptAckFor;
      ghost var infos := InfoStates(proposers);
      var ack := AcceptAt(slot, ballot, value);
      assert InfoStates(proposers) == infos;
      outbox := outbox + [Accepted(from, slot, ack)];
    }

    // -------------------------------------------------------------- starting proposers

    /** A proposer for the next slot. */
    method AddProposer(value: PropValue, tryTime: nat) returns (info: ProposerInfo)
      requires ProposersValid(view, proposers) && Numbered()
      modifies this`proposers, this`maxSlot, this`proposals
      ensures ProposersValid(view, proposers) && Numbered()
      ensures maxSlot == old(maxSlot) + 1 && proposals == old(proposals) + [Proposal(value, tryTime)]
      ensures proposers == old(proposers)[maxSlot := info] && fresh(info) && fresh(info.currProposer)
      ensures info.Info() == InfoState(tryTime, NewProposer(value), INIT)
      ensures InfoStates(proposers) == old(InfoStates(proposers))[maxSlot := info.Info()]
    {
      hide InfoStates, ProposersValid;
      var p := new Proposer(view, value);
      info := new ProposerInfo(tryTime, p, INIT);
      maxSlot := maxSlot + 1;
      InfoAdded(proposers, maxSlot, info);
      ProposerAdded(view, proposers, maxSlot, info);
      proposers := proposers[maxSlot := info];
      proposals := proposals + [Proposal(value, tryTime)];
    }

    ghost function ProposerOf(slot: nat): set<object>
      reads this
    {
      if slot in proposers then {proposers[slot], proposers[slot].currProposer} else {}
    }

    /** The slot's new proposer sends its prepare request. */
    method FirstPrepare(slot: nat) returns (m: Message)
      requires ProposersValid(view, proposers) && slot in proposers
      modifies ProposerOf(slot)
      ensures ProposersValid(view, proposers)
      ensures var info := old(proposers[slot].Info()); var p := Prepared(info.proposer, view.whoami);
        InfoStates(proposers) == old(InfoStates(proposers))[slot := info.(proposer := p, status := INIT)] &&
        m == Prepare(view.whoami, slot, p.currBallot)
    {
      var info := proposers[slot];
      ghost var before := InfoStates(proposers);
      m := info.currProposer.MsgPrepare(slot);
      info.status := INIT;
      OneProposerMoved(view, proposers, before, slot);
    }

    /** The slot's new proposer skips the first phase. */
    method FirstAccept(slot: nat) returns (m: Message)
      requires ProposersValid(view, proposers) && slot in proposers
      modifies ProposerOf(slot)
      ensures ProposersValid(view, proposers)
      ensures var info := old(proposers[slot].Info());
        var p := Prepared(info.proposer, view.whoami).(currValue := Some(info.proposer.initValue));
        InfoStates(proposers) == old(InfoStates(proposers))[slot := info.(proposer := p, status := PHASEII)] &&
        m == Accept(view.whoami, slot, p.currBallot, info.proposer.initValue)
    {
      var info := proposers[slot];
      ghost var before := InfoStates(proposers);
      var ballot := info.currProposer.GenNextBallot();
      info.currProposer.InitCurrValue();
      m := info.currProposer.MsgAccept(slot);
      info.status := PHASEII;
      OneProposerMoved(view, proposers, before, slot);
    }

    ghost predicate Numbered()
      reads this
    {
      forall s :: s in proposers ==> s <= maxSlot
    }

    /** A proposer for the next slot, with its prepare request. */
    method AddPreparing(value: PropValue, tryTime: nat) returns (m: Message)
      requires ProposersValid(view, proposers) && Numbered()
      modifies this`proposers, this`maxSlot, this`proposals
      ensures ProposersValid(view, proposers) && Numbered()
      ensures maxSlot == old(maxSlot) + 1 && proposals == old(proposals) + [Proposal(value, tryTime)]
      ensures maxSlot in proposers && proposers == old(proposers)[maxSlot := proposers[maxSlot]]
      ensures fresh(proposers[maxSlot]) && fresh(proposers[maxSlot].currProposer)
      ensures var p := Prepared(NewProposer(value), view.whoami);
        InfoStates(proposers) == old(InfoStates(proposers))[maxSlot := InfoState(tryTime, p, INIT)] &&
        m == Prepare(view.whoami, maxSlot, p.currBallot)
    {
      hide InfoStates, ProposersValid, Prepared;
      var info := AddProposer(value, tryTime);
      m := FirstPrepare(maxSlot);
    }

    method AddAccepting(value: PropValue) returns (m: Message)
      requires ProposersValid(view, proposers) && Numbered()
      modifies this`proposers, this`maxSlot, this`proposals
      ensures ProposersValid(view, proposers) && Numbered()
      ensures maxSlot == old(maxSlot) + 1 && proposals == old(proposals) + [Proposal(value, 1)]
      ensures maxSlot in proposers && proposers == old(proposers)[maxSlot := proposers[maxSlot]]
      ensures fresh(proposers[maxSlot]) && fresh(proposers[maxSlot].currProposer)
      ensures var p := Prepared(NewProposer(value), view.whoami).(currValue := Some(value));
        InfoStates(proposers) == old(InfoStates(proposers))[maxSlot := InfoState(1, p, PHASEII)] &&
        m == Accept(view.whoami, maxSlot, p.currBallot, value)
    {
      hide InfoStates, ProposersValid, Prepared;
      var info := AddProposer(value, 1);
      m := FirstAccept(maxSlot);
    }

    method StartPrepareNew(value: PropValue, tryTime: nat)
      requires Valid()
      modifies this`proposers, this`maxSlot, this`proposals, this`outbox
      ensures Valid()
      ensures var o := StartPrepare(view, old(State()), value, tryTime);
        State() == o.state && outbox == old(outbox) + o.sent
    {
      hide AcceptorStates, InfoStates, ProposersValid, AcceptorsValid, Prepared;
      ghost var states := AcceptorStates(acceptors);
      var m := AddPreparing(value, tryTime);
      outbox := outbox + [m];
      assert AcceptorStates(acceptors) == states;
    }

    method StartFastNew(value: PropValue)
      requires Valid()
      modifies this`proposers, this`maxSlot, this`proposals, this`outbox
      ensures Valid()
      ensures var o := StartFast(view, old(State()), value);
        State() == o.state && outbox == old(outbox) + o.sent
    {
      hide AcceptorStates, InfoStates, ProposersValid, AcceptorsValid, Prepared;
      ghost var states := AcceptorStates(acceptors);
      var m := AddAccepting(value);
      outbox := outbox + [m];
      assert AcceptorStates(acceptors) == states;
    }

    method StartNewProposer(value: PropValue)
      requires Valid()
      modifies this`proposers, this`maxSlot, this`proposals, this`outbox
      ensures Valid()
      ensures var o := StartNew(view, old(State()), value);
        State() == o.state && outbox == old(outbox) + o.sent
    {
      hide StartFast, StartPrepare, Valid, State, Parts;
      if view.mode.Multi? {
        StartFastNew(value);
      } else {
        StartPrepareNew(value, 1);
      }
    }

    // -------------------------------------------------------------- committing values

    lemma Counted()
      ensures |State().proposers| == |proposers|
    {
      InfoCount(proposers);
    }

    method Enqueue(value: PropValue)
      requires Valid()
      modifies this`committed, this`toCommit
      ensures Valid()
      ensures var c := old(State()); State() == c.(committed := c.committed + [value], toCommit := c.toCommit + [value])
    {
      hide AcceptorStates, InfoStates, ProposersValid, AcceptorsValid;
      committed := committed + [value];
      toCommit := toCommit + [value];
    }

    /** The value waits behind those that came before it, and the first of them all is next. */
    method TakeFirst(value: PropValue) returns (first: PropValue)
      requires Valid()
      modifies this`committed, this`toCommit
      ensures Valid()
      ensures var c := old(State()); var waiting := c.toCommit + [value];
        State() == c.(committed := c.committed + [value], toCommit := waiting[1..]) && first == waiting[0]
    {
      hide AcceptorStates, InfoStates, ProposersValid, AcceptorsValid;
      committed := committed + [value];
      first := value;
      if |toCommit| > 0 {
        toCommit := toCommit + [value];
        first := toCommit[0];
        toCommit := toCommit[1..];
      }
    }

    method CommitPropValue(value: PropValue)
      requires Valid()
      modifies this`proposers, this`maxSlot, this`proposals, this`outbox, this`committed, this`toCommit
      ensures Valid()
      ensures var o := CommitValue(view, old(State()), value);
        State() == o.state && outbox == old(outbox) + o.sent
    {
      hide StartNew, State, Valid, Parts;
      Counted();
      ghost var c := State();
      if |proposers| > view.window {
        return;
      }
      if |proposers| == view.window {
        Enqueue(value);
        return;
      }
      var first := TakeFirst(value);
      if |c.toCommit| > 0 {
        assert (c.toCommit + [value])[1..] == c.toCommit[1..] + [value];
      } else {
        assert State() == c.(committed := c.committed + [value]);
      }
      StartNewProposer(first);
    }

    /** A fresh id: the counter above the node number. */
    method NewValue(data: string) returns (value: PropValue)
      requires Valid()
      modifies this`valueId, this`issued
      ensures Valid()
      ensures var c := old(State()); var id := c.valueId + NODE_SPAN;
        value == PropValue(id, data) && State() == c.(valueId := id, issued := c.issued + [value])
    {
      hide AcceptorStates, InfoStates, ProposersValid, AcceptorsValid;
      valueId := valueId + NODE_SPAN;
      value := PropValue(valueId, data);
      issued := issued + [value];
    }

    method Send(m: Message)
      requires Valid()
      modifies this`outbox
      ensures Valid() && State() == old(State()) && outbox == old(outbox) + [m]
    {
      hide AcceptorStates, InfoStates, ProposersValid, AcceptorsValid;
      outbox := outbox + [m];
    }

    /** `commit` of a string by a client of this node. */
    method Commit(data: string)
      requires Valid()
      modifies this`valueId, this`issued
      modifies this`proposers, this`maxSlot, this`proposals, this`outbox, this`committed, this`toCommit
      ensures Valid()
      ensures var o := LocalCommit(view, old(State()), data);
        State() == o.state && outbox == old(outbox) + o.sent
    {
      hide CommitValue, State, Valid, Parts;
      var value := NewValue(data);
      if view.whoami == view.master {
        CommitPropValue(value);
      } else {
        Send(Message.Commit(view.whoami, value));
      }
    }

    method HandleCommit(from: nat, value: PropValue)
      requires Valid()
      modifies this`proposers, this`maxSlot, this`proposals, this`outbox, this`committed, this`toCommit
      ensures Valid()
      ensures var o := OnCommit(view, old(State()), from, value);
        State() == o.state && outbox == old(outbox) + o.sent
    {
      hide CommitValue, State, Valid, Parts;
      if view.whoami == view.master {
        Send(Message.Commit(from, value));
        CommitPropValue(value);
      }
    }

    // -------------------------------------------------------------- proposers at work

    /** Back to the first phase, with a higher ballot. */
    method Restart(slot: nat) returns (m: Message)
      requires ProposersValid(view, proposers) && slot in proposers
      modifies ProposerOf(slot)
      ensures ProposersValid(view, proposers)
      ensures var info := old(proposers[slot].Info()); var q := Restarted(info.proposer, view.whoami);
        InfoStates(proposers) == old(InfoStates(proposers))[slot := info.(proposer := q, status := INIT)] &&
        m == Prepare(view.whoami, slot, q.currBallot)
    {
      var info := proposers[slot];
      ghost var before := InfoStates(proposers);
      m := info.currProposer.RestartMsgPrepare(slot);
      info.status := INIT;
      OneProposerMoved(view, proposers, before, slot);
    }

    /** The proposer takes the value it has settled on to the second phase. */
    method EnterPhaseTwo(slot: nat) returns (m: Message)
      requires ProposersValid(view, proposers) && slot in proposers && proposers[slot].currProposer.currValue.Some?
      modifies ProposerOf(slot)
      ensures ProposersValid(view, proposers)
      ensures var info := old(proposers[slot].Info());
        InfoStates(proposers) == old(InfoStates(proposers))[slot := info.(status := PHASEII)] &&
        m == Accept(view.whoami, slot, info.proposer.currBallot, info.proposer.currValue.value)
    {
      var info := proposers[slot];
      ghost var before := InfoStates(proposers);
      m := info.currProposer.MsgAccept(slot);
      info.status := PHASEII;
      OneProposerMoved(view, proposers, before, slot);
    }

    /** A proposer in its first phase takes a promise. */
    method TakePromise(slot: nat, m: PromiseAck) returns (r: AckType)
      requires ProposersValid(view, proposers) && slot in proposers && m.node < view.nodes
      modifies ProposerOf(slot)
      ensures ProposersValid(view, proposers)
      ensures var info := old(proposers[slot].Info()); var o := AfterPromise(view, info.proposer, m);
        InfoStates(proposers) == old(InfoStates(proposers))[slot := info.(proposer := o.0, status := PHASEI)] &&
          r == o.1
    {
      hide AfterPromise;
      var info := proposers[slot];
      ghost var before := InfoStates(proposers);
      assert FiledByNode(before[slot].proposer, view.nodes);
      info.status := PHASEI;
      r := info.currProposer.HandleMsgPromise(m);
      OneProposerMoved(view, proposers, before, slot);
    }

    method TakeVote(slot: nat, m: AcceptAck) returns (r: AckType)
      requires ProposersValid(view, proposers) && slot in proposers && m.node < view.nodes
      modifies ProposerOf(slot)
      ensures ProposersValid(view, proposers)
      ensures var info := old(proposers[slot].Info()); var o := AfterAccepted(view, info.proposer, m);
        InfoStates(proposers) == old(InfoStates(proposers))[slot := info.(proposer := o.0)] && r == o.1
    {
      hide AfterAccepted;
      var info := proposers[slot];
      ghost var before := InfoStates(proposers);
      assert FiledByNode(before[slot].proposer, view.nodes);
      r := info.currProposer.HandleMsgAccepted(m);
      OneProposerMoved(view, proposers, before, slot);
    }

    /** The proposer's part of a promise. */
    method ProposerPromise(slot: nat, m: PromiseAck) returns (sent: seq<Message>)
      requires ProposersValid(view, proposers) && slot in proposers && m.node < view.nodes
      modifies ProposerOf(slot)
      ensures ProposersValid(view, proposers)
      ensures var (info, msgs) := PromiseInfo(view, slot, old(InfoStates(proposers))[slot], m);
        InfoStates(proposers) == old(InfoStates(proposers))[slot := info] && sent == msgs
    {
      hide AfterPromise, ProposersValid, Restarted, InfoStates;
      InfoAt(proposers, slot);
      ContinueHasValue(view, proposers[slot].currProposer.State(), m);
      sent := [];
      var r := TakePromise(slot, m);
      InfoAt(proposers, slot);
      if r == CONTINUE {
        var a := EnterPhaseTwo(slot);
        sent := [a];
      } else if r == RESTART {
        var a := Restart(slot);
        sent := [a];
      }
    }

    method HandlePromise(slot: nat, m: PromiseAck)
      requires Valid() && m.node < view.nodes
      modifies this`outbox, ProposerOf(slot)
      ensures Valid()
      ensures var o := OnPromise(view, old(State()), slot, m);
        State() == o.state && outbox == old(outbox) + o.sent
    {
      hide AcceptorStates, InfoStates, ProposersValid, AcceptorsValid, PromiseInfo;
      if slot !in proposers {
        InfoKeys(proposers);
        return;
      }
      InfoAt(proposers, slot);
      if !proposers[slot].status.INIT? && !proposers[slot].status.PHASEI? {
        return;
      }
      ghost var states := AcceptorStates(acceptors);
      var sent := ProposerPromise(slot, m);
      assert AcceptorStates(acceptors) == states;
      outbox := outbox + sent;
    }

    method MarkChosen(slot: nat)
      requires ProposersValid(view, proposers) && slot in proposers
      modifies ProposerOf(slot)
      ensures ProposersValid(view, proposers)
      ensures InfoStates(proposers) ==
        old(InfoStates(proposers))[slot := old(proposers[slot].Info()).(status := CHOSEN)]
    {
      ghost var before := InfoStates(proposers);
      proposers[slot].status := CHOSEN;
      OneProposerMoved(view, proposers, before, slot);
    }

    /** The proposer's part of a vote. */
    method ProposerVote(slot: nat, m: AcceptAck) returns (chosen: bool, sent: seq<Message>)
      requires ProposersValid(view, proposers) && slot in proposers && m.node < view.nodes
      modifies ProposerOf(slot)
      ensures ProposersValid(view, proposers)
      ensures var info := old(InfoStates(proposers))[slot]; var (p, r) := AfterAccepted(view, info.proposer, m);
        var q := Restarted(p, view.whoami);
        chosen == (r == CHOOSE) &&
        sent == (if r == RESTART then [Prepare(view.whoami, slot, q.currBallot)] else []) &&
        InfoStates(proposers) == old(InfoStates(proposers))[slot :=
          if r == CHOOSE then info.(proposer := p, status := CHOSEN)
          else if r == RESTART then info.(proposer := q, status := INIT)
          else info.(proposer := p)]
    {
      hide AfterAccepted, ProposersValid, Restarted, InfoStates;
      InfoAt(proposers, slot);
      sent := [];
      var r := TakeVote(slot, m);
      InfoAt(proposers, slot);
      chosen := r == CHOOSE;
      if r == CHOOSE {
        MarkChosen(slot);
      } else if r == RESTART {
        var a := Restart(slot);
        sent := [a];
      }
    }

    // -------------------------------------------------------------- the end of a proposer

    method InformClient(slot: nat, value: PropValue)
      requires Valid() && slot in proposers
      modifies this`informed
      ensures Valid()
      ensures var c := old(State()); var init := proposers[slot].currProposer.initValue;
        State() == c.(informed := if value.id == init.id then c.informed + [init] else c.informed)
    {
      hide AcceptorStates, InfoStates, ProposersValid, AcceptorsValid;
      var init := proposers[slot].currProposer.initValue;
      if value.id == init.id {
        informed := informed + [init];
      }
    }

    /** What the abstract state says about the fields. */
    lemma Fields()
      ensures State().chosenValues == chosenValues && State().toCommit == toCommit
      ensures State().proposers.Keys == proposers.Keys
      ensures forall s :: s in proposers ==> State().proposers[s] == proposers[s].Info()
    {}

    lemma AnnounceParts(c: CaptainState, slot: nat, info: InfoState, v: PropValue)
      ensures var init := info.proposer.initValue; var o := Announce(view, c, slot, info, v);
        o.state == AddChosen(c.(informed := if v.id == init.id then c.informed + [init] else c.informed), slot, v) &&
        slot < |o.state.chosenValues| &&
        o.sent == [Decide(view.whoami, slot, v.id)] +
          if (view.mode.Multi? || view.mode.Quorum?) && o.state.chosenValues[slot].Some?
          then [Teach(view.whoami, slot, o.state.chosenValues[slot].value)] else []
    {
      hide Frontier, Due;
    }

    /** What is sent to all about a chosen value: its id, and in the later modes the value itself. */
    function News(slot: nat, id: nat, v: PropValue): seq<Message> {
      [Decide(view.whoami, slot, id)] +
        if view.mode.Multi? || view.mode.Quorum? then [Teach(view.whoami, slot, v)] else []
    }

    method SendNews(slot: nat, id: nat)
      requires Valid() && slot < |chosenValues| && chosenValues[slot].Some?
      modifies this`outbox
      ensures Valid() && State() == old(State()) && outbox == old(outbox) + News(slot, id, chosenValues[slot].value)
    {
      hide Valid, State;
      Send(Decide(view.whoami, slot, id));
      if view.mode.Multi? || view.mode.Quorum? {
        Send(Teach(view.whoami, slot, chosenValues[slot].value));
      }
    }

    /** The client is told about its own value, the value enters the log, and the others are told. */
    method AnnounceChosen(slot: nat, value: PropValue)
      requires Valid() && slot in proposers
      modifies this`informed, this`chosenValues, this`maxChosen, this`maxChosenWithoutHole, this`callbacks, this`outbox
      ensures Valid()
      ensures slot in old(State()).proposers
      ensures var c := old(State()); var o := Announce(view, c, slot, c.proposers[slot], value);
        State() == o.state && outbox == old(outbox) + o.sent
    {
      hide Valid, State, AddChosen, Announce;
      ghost var c := State();
      Fields();
      AnnounceParts(c, slot, proposers[slot].Info(), value);
      InformClient(slot, value);
      AddChosenValue(slot, value);
      LogFields();
      assert State() == Announce(view, c, slot, c.proposers[slot], value).state;
      SendNews(slot, value.id);
    }

    method DropProposer(slot: nat)
      requires Valid() && slot in proposers
      modifies this`proposers
      ensures Valid() && proposers == old(proposers) - {slot}
      ensures var c := old(State()); State() == c.(proposers := c.proposers - {slot})
    {
      hide AcceptorStates, AcceptorsValid, FiledByNode;
      ghost var infos := InfoStates(proposers);
      proposers := proposers - {slot};
      assert InfoStates(proposers) == infos - {slot};
    }

    method NextWaiting() returns (value: PropValue)
      requires Valid() && toCommit != []
      modifies this`toCommit
      ensures Valid()
      ensures var c := old(State()); State() == c.(toCommit := c.toCommit[1..]) && value == c.toCommit[0]
    {
      hide AcceptorStates, InfoStates, ProposersValid, AcceptorsValid;
      value := toCommit[0];
      toCommit := toCommit[1..];
    }

    /** The place of a finished proposer goes to the oldest waiting value, or to its own value if that lost. */
    method ReplaceProposer(slot: nat, value: PropValue)
      requires Valid() && slot in proposers
      modifies this`proposers, this`maxSlot, this`proposals, this`outbox, this`toCommit
      ensures Valid()
      ensures slot in old(State()).proposers
      ensures var c := old(State()); var o := Replace(view, c, slot, c.proposers[slot], value);
        State() == o.state && outbox == old(outbox) + o.sent
    {
      hide Valid, State, StartNew, StartPrepare;
      Fields();
      var init, tryTime := proposers[slot].currProposer.initValue, proposers[slot].tryTime;
      DropProposer(slot);
      Fields();
      if value.id == init.id {
        if |toCommit| > 0 {
          var next := NextWaiting();
          StartNewProposer(next);
        }
      } else {
        StartPrepareNew(init, tryTime + 1);
      }
    }

    /** Announcing and replacing look at the initial value and the tries of the proposer only. */
    lemma SameEnd(c: CaptainState, slot: nat, info: InfoState, info': InfoState, v: PropValue)
      requires info.proposer.initValue == info'.proposer.initValue && info.tryTime == info'.tryTime
      ensures Announce(view, c, slot, info, v) == Announce(view, c, slot, info', v)
      ensures Replace(view, c, slot, info, v) == Replace(view, c, slot, info', v)
    {
      hide AddChosen, StartNew, StartPrepare;
    }

    lemma ChooseHasValue(p: ProposerState, m: AcceptAck)
      ensures AfterAccepted(view, p, m).1 == CHOOSE ==> AfterAccepted(view, p, m).0.currValue.Some?
      ensures AfterAccepted(view, p, m).0.initValue == p.initValue
    {}

    /** The vote is filed; unless it settles the slot, the proposer stays or starts over. */
    method CountVote(slot: nat, m: AcceptAck) returns (chosen: bool)
      requires Valid() && slot in proposers && proposers[slot].status.PHASEII? && m.node < view.nodes
      modifies this`outbox, ProposerOf(slot)
      ensures Valid()
      ensures slot in old(State()).proposers
      ensures var c := old(State()); var info := c.proposers[slot]; var (p, r) := AfterAccepted(view, info.proposer, m);
        chosen == (r == CHOOSE) &&
        if chosen then
          p.currValue.Some? && outbox == old(outbox) &&
          State() == c.(proposers := c.proposers[slot := info.(proposer := p, status := CHOSEN)])
        else
          State() == OnAccepted(view, c, slot, m).state && outbox == old(outbox) + OnAccepted(view, c, slot, m).sent
    {
      hide AcceptorStates, InfoStates, ProposersValid, AcceptorsValid, AfterAccepted, Restarted;
      ghost var c := State();
      InfoAt(proposers, slot);
      ghost var states := AcceptorStates(acceptors);
      var sent;
      chosen, sent := ProposerVote(slot, m);
      assert AcceptorStates(acceptors) == states;
      outbox := outbox + sent;
      ChooseHasValue(c.proposers[slot].proposer, m);
    }

    method FinishSlot(slot: nat, ghost info: InfoState)
      requires Valid() && slot in proposers && proposers[slot].currProposer.currValue.Some?
      requires info.proposer.initValue == proposers[slot].currProposer.initValue
      requires info.tryTime == proposers[slot].tryTime
      modifies this`informed, this`chosenValues, this`maxChosen, this`maxChosenWithoutHole, this`callbacks, this`outbox
      modifies this`proposers, this`maxSlot, this`proposals, this`toCommit
      ensures Valid()
      ensures var c := old(State()); var v := old(proposers[slot].currProposer.currValue.value);
        var a := Announce(view, c, slot, info, v); var b := Replace(view, a.state, slot, info, v);
        State() == b.state && outbox == old(outbox) + (a.sent + b.sent)
    {
      hide Valid, State, Announce, Replace;
      ghost var c := State();
      Fields();
      var value := proposers[slot].currProposer.currValue.value;
      SameEnd(c, slot, proposers[slot].Info(), info, value);
      AnnounceChosen(slot, value);
      Fields();
      SameEnd(State(), slot, proposers[slot].Info(), info, value);
      ReplaceProposer(slot, value);
    }

    method HandleAccepted(slot: nat, m: AcceptAck)
      requires Valid() && m.node < view.nodes
      modifies this`informed, this`chosenValues, this`maxChosen, this`maxChosenWithoutHole, this`callbacks, this`outbox
      modifies this`proposers, this`maxSlot, this`proposals, this`toCommit, ProposerOf(slot)
      ensures Valid()
      ensures var o := OnAccepted(view, old(State()), slot, m);
        State() == o.state && outbox == old(outbox) + o.sent
    {
      hide Valid, State, AfterAccepted, Announce, Replace, Restarted;
      Fields();
      if slot !in proposers || !proposers[slot].status.PHASEII? {
        return;
      }
      ghost var info := proposers[slot].Info();
      ChooseHasValue(info.proposer, m);
      var chosen := CountVote(slot, m);
      if chosen {
        Fields();
        FinishSlot(slot, info);
      }
    }

    // -------------------------------------------------------------- learning

    method HandleDecide(slot: nat, id: nat)
      requires Valid() && slot >= 1
      modifies this`chosenValues, this`maxChosen, this`maxChosenWithoutHole, this`callbacks, this`outbox
      ensures Valid()
      ensures var o := OnDecide(view, old(State()), slot, id);
        State() == o.state && outbox == old(outbox) + o.sent
    {
      hide Valid, State, AddChosen;
      LogFields();
      if maxChosen >= slot && chosenValues[slot].Some? {
        return;
      }
      StoredValue(slot);
      if |acceptors| > slot && acceptors[slot].maxValue.Some? && acceptors[slot].maxValue.value.id == id {
        AddChosenValue(slot, acceptors[slot].maxValue.value);
      } else {
        Send(Learn(view.whoami, slot));
      }
    }

    lemma LogFields()
      requires Valid()
      ensures State().chosenValues == chosenValues && |chosenValues| == maxChosen + 1
    {}

    lemma StoredValue(slot: nat)
      requires Valid() && slot >= 1
      ensures |acceptors| > slot ==> acceptors[slot] != null
      ensures AcceptorAt(State(), slot).maxValue == if |acceptors| > slot then acceptors[slot].maxValue else None
    {}

    method HandleLearn(slot: nat)
      requires Valid()
      modifies this`outbox
      ensures Valid()
      ensures var o := OnLearn(view, old(State()), slot);
        State() == o.state && outbox == old(outbox) + o.sent
    {
      hide Valid, State;
      LogFields();
      if slot > maxChosen || chosenValues[slot].None? {
        return;
      }
      Send(Teach(view.whoami, slot, chosenValues[slot].value));
    }

    method HandleTeach(slot: nat, value: PropValue)
      requires Valid()
      modifies this`chosenValues, this`maxChosen, this`maxChosenWithoutHole, this`callbacks
      ensures Valid() && State() == OnTeach(old(State()), slot, value).state
    {
      hide Valid, State, AddChosen;
      LogFields();
      if maxChosen >= slot && chosenValues[slot].Some? {
        return;
      }
      AddChosenValue(slot, value);
    }

    // -------------------------------------------------------------- dispatch

    /** A node does to its fields exactly what the specification says. */
    method HandleMsg(m: Message)
      requires Valid() && Sensible(view, m)
      modifies this, Parts()
      ensures Valid()
      ensures var o := CaptainSpec.HandleMsg(view, old(State()), m);
        State() == o.state && outbox == old(outbox) + o.sent
    {
      hide State, OnPrepare, OnAccept, OnPromise, OnAccepted, OnDecide, OnLearn, OnCommit;
      WorkField();
      if !work {
        return;
      }
      match m
      case Prepare(node, slot, ballot) => HandlePrepare(node, slot, ballot);
      case Promise(to, slot, ack) => HandlePromise(slot, ack);
      case Accept(node, slot, ballot, value) => HandleAccept(node, slot, ballot, value);
      case Accepted(to, slot, ack) => HandleAccepted(slot, ack);
      case Decide(node, slot, valueId) => HandleDecide(slot, valueId);
      case Learn(node, slot) => HandleLearn(slot);
      case Teach(node, slot, value) => HandleTeach(slot, value);
      case Commit(node, value) => HandleCommit(node, value);
    }

    lemma WorkField()
      ensures State().work == work
    {}
  }
}
