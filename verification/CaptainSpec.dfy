/**
 What one node does, as functions from its state and one input to its next state and the
 messages it sends: libndnpaxos/captain.cpp. The class in `Captains` is proved against them.
 */
module CaptainSpec {
  import opened PaxosTypes
  import opened Acceptors
  import opened Proposers

  datatype Status = INIT | PHASEI | PHASEII | CHOSEN

  datatype InfoState = InfoState(tryTime: nat, proposer: ProposerState, status: Status)

  /** What the proposer of a slot was started with. */
  datatype Proposal = Proposal(value: PropValue, tryTime: nat)

  /**
   The fields of a node. `callbacks` are the values handed to the callback and `informed` those
   whose client was told. The last three are histories: the values given to `CommitValue`, how
   the proposer of each slot 1, 2, ... was started, and every value this node created.
   */
  datatype CaptainState = CaptainState(
    work: bool,
    maxFrontier: nat,
    maxSlot: nat,
    valueId: nat,
    acceptors: seq<AcceptorState>,
    proposers: map<nat, InfoState>,
    chosenValues: seq<Option<PropValue>>,
    toCommit: seq<PropValue>,
    callbacks: seq<PropValue>,
    informed: seq<PropValue>,
    committed: seq<PropValue>,
    proposals: seq<Proposal>,
    issued: seq<PropValue>)

  datatype Outcome = Outcome(state: CaptainState, sent: seq<Message>)

  // ---------------------------------------------------------------- start

  /** In Multi mode every acceptor of the leased slots starts as if the master had prepared. */
  function InitialAcceptors(view: View): seq<AcceptorState> {
    [FRESH_ACCEPTOR] +
    if view.mode.Multi? then seq(view.length, i => FRESH_ACCEPTOR.(maxProposed := NODE_SPAN + view.master)) else []
  }

  function InitialCaptain(view: View): CaptainState {
    CaptainState(true, 0, 0, view.whoami, InitialAcceptors(view), map[], [None], [], [], [], [], [], [])
  }

  function AcceptorAt(c: CaptainState, slot: nat): AcceptorState {
    if slot < |c.acceptors| then c.acceptors[slot] else FRESH_ACCEPTOR
  }

  /** Acceptors up to `slot` exist from the first message about it on. */
  function Grown(acceptors: seq<AcceptorState>, slot: nat): (r: seq<AcceptorState>)
    ensures slot < |r| && |acceptors| <= |r|
    ensures forall i :: 0 <= i < |r| ==> r[i] == if i < |acceptors| then acceptors[i] else FRESH_ACCEPTOR
  {
    if slot < |acceptors| then acceptors else acceptors + seq(slot + 1 - |acceptors|, i => FRESH_ACCEPTOR)
  }

  function WithAcceptor(c: CaptainState, slot: nat, a: AcceptorState): CaptainState {
    c.(acceptors := Grown(c.acceptors, slot)[slot := a])
  }

  // ---------------------------------------------------------------- the log of chosen values

  function IsChosen(c: CaptainState, slot: nat): bool {
    slot < |c.chosenValues| && c.chosenValues[slot].Some?
  }

  /** The value at `slot`, holes before it, and nothing overwritten. */
  function Filled(log: seq<Option<PropValue>>, slot: nat, v: PropValue): (r: seq<Option<PropValue>>)
    ensures slot < |r| && |log| <= |r|
  {
    if slot < |log| then
      if log[slot].None? then log[slot := Some(v)] else log
    else
      log + seq(slot - |log|, i => None) + [Some(v)]
  }

  /** The last slot before the first hole after `h`. */
  function Frontier(log: seq<Option<PropValue>>, h: nat): (r: nat)
    ensures r >= h
    decreases |log| - h
  {
    if h + 1 < |log| && log[h + 1].Some? then Frontier(log, h + 1) else h
  }

  /** The callbacks that become due when the frontier moves: one for each slot it passes. */
  function Due(log: seq<Option<PropValue>>, h: nat): (r: seq<PropValue>)
    ensures |r| == Frontier(log, h) - h
    decreases |log| - h
  {
    if h + 1 < |log| && log[h + 1].Some? then [log[h + 1].value] + Due(log, h + 1) else []
  }

  function AddChosen(c: CaptainState, slot: nat, v: PropValue): CaptainState
  {
    var log := Filled(c.chosenValues, slot, v);
    c.(chosenValues := log,
       maxFrontier := Frontier(log, c.maxFrontier),
       callbacks := c.callbacks + Due(log, c.maxFrontier))
  }

  // ---------------------------------------------------------------- starting proposers

  /** A fresh slot whose proposer starts with a prepare request. */
  function StartPrepare(view: View, c: CaptainState, v: PropValue, tryTime: nat): Outcome {
    var slot := c.maxSlot + 1;
    var p := Prepared(NewProposer(v), view.whoami);
    Outcome(
      c.(maxSlot := slot, proposers := c.proposers[slot := InfoState(tryTime, p, INIT)],
        proposals := c.proposals + [Proposal(v, tryTime)]),
      [Prepare(view.whoami, slot, p.currBallot)])
  }

  /** A fresh slot whose proposer skips the first phase. */
  function StartFast(view: View, c: CaptainState, v: PropValue): Outcome {
    var slot := c.maxSlot + 1;
    var p := Prepared(NewProposer(v), view.whoami).(currValue := Some(v));
    Outcome(
      c.(maxSlot := slot, proposers := c.proposers[slot := InfoState(1, p, PHASEII)],
        proposals := c.proposals + [Proposal(v, 1)]),
      [Accept(view.whoami, slot, p.currBallot, v)])
  }

  function StartNew(view: View, c: CaptainState, v: PropValue): Outcome {
    if view.mode.Multi? then StartFast(view, c, v) else StartPrepare(view, c, v, 1)
  }

  /** Queues the value while the window is full; otherwise the oldest waiting value goes first. */
  function CommitValue(view: View, c: CaptainState, v: PropValue): Outcome {
    if |c.proposers| > view.window then Outcome(c, [])
    else
      var d := c.(committed := c.committed + [v]);
      if |c.proposers| == view.window then Outcome(d.(toCommit := c.toCommit + [v]), [])
      else if |c.toCommit| > 0 then
        StartNew(view, d.(toCommit := c.toCommit[1..] + [v]), c.toCommit[0])
      else StartNew(view, d, v)
  }

  /** `commit` of a string: a fresh id, then a local commit or a request to the master. */
  function LocalCommit(view: View, c: CaptainState, data: string): Outcome {
    var id := c.valueId + NODE_SPAN;
    var v := PropValue(id, data);
    var d := c.(valueId := id, issued := c.issued + [v]);
    if view.whoami == view.master then CommitValue(view, d, v)
    else Outcome(d, [Commit(view.whoami, v)])
  }

  // ---------------------------------------------------------------- handlers

  function OnPrepare(view: View, c: CaptainState, from: nat, slot: nat, ballot: nat): Outcome {
    var a := AcceptorAt(c, slot);
    Outcome(WithAcceptor(c, slot, PrepareNext(a, ballot)), [Promise(from, slot, PromiseFor(a, view.whoami, ballot))])
  }

  function OnAccept(view: View, c: CaptainState, from: nat, slot: nat, ballot: nat, v: PropValue): Outcome {
    var a := AcceptorAt(c, slot);
    Outcome(WithAcceptor(c, slot, AcceptNext(a, ballot, v)),
      [Accepted(from, slot, AcceptAckFor(a, view.whoami, ballot))])
  }

  predicate FirstPhase(status: Status) { status.INIT? || status.PHASEI? }

  /** A proposer in its first phase takes a promise: on to the second phase, over again, or wait. */
  ghost function PromiseInfo(view: View, slot: nat, info: InfoState, m: PromiseAck): (InfoState, seq<Message>) {
    var (p, r) := AfterPromise(view, info.proposer, m);
    if r == CONTINUE && p.currValue.Some? then
      (info.(proposer := p, status := PHASEII), [Accept(view.whoami, slot, p.currBallot, p.currValue.value)])
    else if r == RESTART then
      var q := Restarted(p, view.whoami);
      (info.(proposer := q, status := INIT), [Prepare(view.whoami, slot, q.currBallot)])
    else
      (info.(proposer := p, status := PHASEI), [])
  }

  ghost function OnPromise(view: View, c: CaptainState, slot: nat, m: PromiseAck): Outcome {
    if slot !in c.proposers || !FirstPhase(c.proposers[slot].status) then Outcome(c, [])
    else
      var (info, sent) := PromiseInfo(view, slot, c.proposers[slot], m);
      Outcome(c.(proposers := c.proposers[slot := info]), sent)
  }

  /** The value of a finished proposer enters the log and is announced. */
  function Announce(view: View, c: CaptainState, slot: nat, info: InfoState, v: PropValue): Outcome
  {
    var own := v.id == info.proposer.initValue.id;
    var d := AddChosen(c.(informed := if own then c.informed + [info.proposer.initValue] else c.informed), slot, v);
    Outcome(d, [Decide(view.whoami, slot, v.id)] +
      if (view.mode.Multi? || view.mode.Quorum?) && d.chosenValues[slot].Some?
      then [Teach(view.whoami, slot, d.chosenValues[slot].value)] else [])
  }

  /** The finished proposer is replaced: by the next waiting value, or by its own losing value. */
  function Replace(view: View, c: CaptainState, slot: nat, info: InfoState, v: PropValue): Outcome {
    var d := c.(proposers := c.proposers - {slot});
    if v.id == info.proposer.initValue.id then
      if |d.toCommit| == 0 then Outcome(d, [])
      else StartNew(view, d.(toCommit := d.toCommit[1..]), d.toCommit[0])
    else
      StartPrepare(view, d, info.proposer.initValue, info.tryTime + 1)
  }

  ghost function OnAccepted(view: View, c: CaptainState, slot: nat, m: AcceptAck): Outcome
  {
    if slot !in c.proposers || !c.proposers[slot].status.PHASEII? then Outcome(c, [])
    else
      var info := c.proposers[slot];
      var (p, r) := AfterAccepted(view, info.proposer, m);
      if r == CHOOSE && p.currValue.Some? then
        var d := c.(proposers := c.proposers[slot := info.(proposer := p, status := CHOSEN)]);
        var a := Announce(view, d, slot, info, p.currValue.value);
        var b := Replace(view, a.state, slot, info, p.currValue.value);
        Outcome(b.state, a.sent + b.sent)
      else if r == RESTART then
        var q := Restarted(p, view.whoami);
        Outcome(c.(proposers := c.proposers[slot := info.(proposer := q, status := INIT)]),
          [Prepare(view.whoami, slot, q.currBallot)])
      else Outcome(c.(proposers := c.proposers[slot := info.(proposer := p)]), [])
  }

  function OnDecide(view: View, c: CaptainState, slot: nat, valueId: nat): Outcome
  {
    var stored := AcceptorAt(c, slot).maxValue;
    if IsChosen(c, slot) then Outcome(c, [])
    else if stored.Some? && stored.value.id == valueId then Outcome(AddChosen(c, slot, stored.value), [])
    else Outcome(c, [Learn(view.whoami, slot)])
  }

  function OnLearn(view: View, c: CaptainState, slot: nat): Outcome {
    if IsChosen(c, slot) then Outcome(c, [Teach(view.whoami, slot, c.chosenValues[slot].value)])
    else Outcome(c, [])
  }

  function OnTeach(c: CaptainState, slot: nat, v: PropValue): Outcome
  {
    if IsChosen(c, slot) then Outcome(c, []) else Outcome(AddChosen(c, slot, v), [])
  }

  /** The master answers a forwarded value with the same message and commits it. */
  function OnCommit(view: View, c: CaptainState, from: nat, v: PropValue): Outcome {
    if view.whoami == view.master then
      var o := CommitValue(view, c, v);
      Outcome(o.state, [Commit(from, v)] + o.sent)
    else Outcome(c, [])
  }

  /** A crashed node ignores every message. */
  ghost function HandleMsg(view: View, c: CaptainState, m: Message): Outcome
  {
    if !c.work then Outcome(c, []) else
    match m
    case Prepare(node, slot, ballot) => OnPrepare(view, c, node, slot, ballot)
    case Promise(to, slot, ack) => OnPromise(view, c, slot, ack)
    case Accept(node, slot, ballot, value) => OnAccept(view, c, node, slot, ballot, value)
    case Accepted(to, slot, ack) => OnAccepted(view, c, slot, ack)
    case Decide(node, slot, valueId) => OnDecide(view, c, slot, valueId)
    case Learn(node, slot) => OnLearn(view, c, slot)
    case Teach(node, slot, value) => OnTeach(c, slot, value)
    case Commit(node, value) => OnCommit(view, c, node, value)
  }

  /** Messages are about the slots 1, 2, ... */
  predicate SlotNumbered(m: Message) {
    match m
    case Decide(_, s, _) => s >= 1
    case Teach(_, s, _) => s >= 1
    case Learn(_, s) => s >= 1
    case Commit(_, _) => true
    case _ => m.slot >= 1
  }

  /** What a node may expect of a message: a slot number, and answers of nodes it knows. */
  predicate Sensible(view: View, m: Message) {
    SlotNumbered(m) && (m.Promise? ==> m.promise.node < view.nodes) && (m.Accepted? ==> m.ack.node < view.nodes)
  }
}
