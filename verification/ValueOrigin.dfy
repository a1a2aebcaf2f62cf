/** Every value a node stores or sends is one it was given or was sent. */
module ValueOrigin {
  import opened PaxosTypes
  import opened Acceptors
  import opened Proposers
  import opened CaptainSpec

  ghost predicate KnownOption(o: Option<PropValue>, k: set<PropValue>) {
    o.Some? ==> o.value in k
  }

  ghost predicate KnownProposer(p: ProposerState, k: set<PropValue>) {
    p.initValue in k && KnownOption(p.currValue, k) && KnownOption(p.maxValue, k) &&
    forall i :: i in p.ackPrepare ==> KnownOption(p.ackPrepare[i].maxValue, k)
  }

  ghost predicate KnownNode(c: CaptainState, k: set<PropValue>) {
    (forall i :: 0 <= i < |c.acceptors| ==> KnownOption(c.acceptors[i].maxValue, k)) &&
    (forall s :: s in c.proposers ==> KnownProposer(c.proposers[s].proposer, k)) &&
    (forall v :: v in c.toCommit ==> v in k) &&
    (forall j :: 0 <= j < |c.chosenValues| ==> KnownOption(c.chosenValues[j], k))
  }

  ghost predicate KnownMsg(m: Message, k: set<PropValue>) {
    match m
    case Promise(_, _, a) => KnownOption(a.maxValue, k)
    case Accept(_, _, _, v) => v in k
    case Teach(_, _, v) => v in k
    case Commit(_, v) => v in k
    case _ => true
  }

  ghost predicate KnownOutcome(o: Outcome, k: set<PropValue>) {
    KnownNode(o.state, k) && forall m :: m in o.sent ==> KnownMsg(m, k)
  }

  lemma KnownMore(c: CaptainState, k: set<PropValue>, k': set<PropValue>)
    requires KnownNode(c, k) && k <= k'
    ensures KnownNode(c, k')
  {}

  lemma {:induction false} HighestKnown(acks: map<nat, PromiseAck>, n: nat, start: Report, k: set<PropValue>)
    requires KnownOption(start.value, k) && forall i :: i in acks ==> KnownOption(acks[i].maxValue, k)
    ensures KnownOption(Highest(acks, n, start).value, k)
  {
    if n > 0 {
      HighestKnown(acks, n - 1, start, k);
    }
  }

  lemma PromiseKnown(view: View, p: ProposerState, m: PromiseAck, k: set<PropValue>)
    requires KnownProposer(p, k) && KnownOption(m.maxValue, k)
    ensures KnownProposer(AfterPromise(view, p, m).0, k)
  {
    hide Highest, Granted, Shares;
    HighestKnown(p.ackPrepare[m.node := m], view.nodes, Report(p.maxBallot, p.maxValue), k);
  }

  lemma AcceptorKnown(c: CaptainState, slot: nat, a: AcceptorState, k: set<PropValue>)
    requires KnownNode(c, k) && KnownOption(a.maxValue, k)
    ensures KnownNode(WithAcceptor(c, slot, a), k)
  {
    hide Grown;
  }

  lemma AddChosenKnown(c: CaptainState, slot: nat, v: PropValue, k: set<PropValue>)
    requires KnownNode(c, k) && v in k
    ensures KnownNode(AddChosen(c, slot, v), k)
  {
    hide Frontier, Due, KnownProposer;
    var log := Filled(c.chosenValues, slot, v);
    forall j | 0 <= j < |log|
      ensures KnownOption(log[j], k)
    {}
  }

  lemma StartNewKnown(view: View, c: CaptainState, v: PropValue, k: set<PropValue>)
    requires KnownNode(c, k) && v in k
    ensures KnownOutcome(StartNew(view, c, v), k)
  {}

  lemma CommitValueKnown(view: View, c: CaptainState, v: PropValue, k: set<PropValue>)
    requires KnownNode(c, k) && v in k
    ensures KnownOutcome(CommitValue(view, c, v), k)
  {
    hide StartNew;
    var d := c.(committed := c.committed + [v]);
    StartNewKnown(view, d, v, k);
    if |c.toCommit| > 0 {
      StartNewKnown(view, d.(toCommit := c.toCommit[1..] + [v]), c.toCommit[0], k);
    }
  }

  lemma ReplaceKnown(view: View, c: CaptainState, slot: nat, info: InfoState, v: PropValue, k: set<PropValue>)
    requires KnownNode(c, k) && info.proposer.initValue in k
    ensures KnownOutcome(Replace(view, c, slot, info, v), k)
  {
    hide StartNew;
    var d := c.(proposers := c.proposers - {slot});
    if |d.toCommit| > 0 {
      StartNewKnown(view, d.(toCommit := d.toCommit[1..]), d.toCommit[0], k);
    }
  }

  lemma AnnounceKnown(view: View, c: CaptainState, slot: nat, info: InfoState, v: PropValue, k: set<PropValue>)
    requires KnownNode(c, k) && v in k
    ensures KnownOutcome(Announce(view, c, slot, info, v), k)
  {
    hide Frontier, Due, KnownProposer;
    var own := v.id == info.proposer.initValue.id;
    var e := c.(informed := if own then c.informed + [info.proposer.initValue] else c.informed);
    assert KnownNode(e, k);
    AddChosenKnown(e, slot, v, k);
    var o := Announce(view, c, slot, info, v);
    assert o.state == AddChosen(e, slot, v);
    assert o.state.chosenValues[slot].Some? ==> o.state.chosenValues[slot].value in k;
  }

  lemma OnPromiseKnown(view: View, c: CaptainState, slot: nat, m: PromiseAck, k: set<PropValue>)
    requires KnownNode(c, k) && KnownOption(m.maxValue, k)
    ensures KnownOutcome(OnPromise(view, c, slot, m), k)
  {
    hide AfterPromise;
    if slot in c.proposers {
      PromiseKnown(view, c.proposers[slot].proposer, m, k);
    }
  }

  lemma OnAcceptedKnown(view: View, c: CaptainState, slot: nat, m: AcceptAck, k: set<PropValue>)
    requires KnownNode(c, k)
    ensures KnownOutcome(OnAccepted(view, c, slot, m), k)
  {
    hide Votes, Announce, Replace;
    if slot in c.proposers {
      var info := c.proposers[slot];
      var (p, r) := AfterAccepted(view, info.proposer, m);
      assert KnownProposer(p, k);
      if r == CHOOSE && p.currValue.Some? {
        var d := c.(proposers := c.proposers[slot := info.(proposer := p, status := CHOSEN)]);
        AnnounceKnown(view, d, slot, info, p.currValue.value, k);
        ReplaceKnown(view, Announce(view, d, slot, info, p.currValue.value).state, slot, info, p.currValue.value, k);
      }
    }
  }

  /** A message made of known values leaves only known values behind. */
  lemma HandleMsgKnown(view: View, c: CaptainState, m: Message, k: set<PropValue>)
    requires KnownNode(c, k) && KnownMsg(m, k)
    ensures KnownOutcome(HandleMsg(view, c, m), k)
  {
    hide OnPromise, OnAccepted, CommitValue, AddChosen, KnownProposer, WithAcceptor;
    if c.work {
      match m
      case Prepare(node, slot, ballot) =>
        assert KnownOption(AcceptorAt(c, slot).maxValue, k);
        AcceptorKnown(c, slot, PrepareNext(AcceptorAt(c, slot), ballot), k);
      case Promise(to, slot, ack) => OnPromiseKnown(view, c, slot, ack, k);
      case Accept(node, slot, ballot, v) =>
        assert KnownOption(AcceptorAt(c, slot).maxValue, k);
        AcceptorKnown(c, slot, AcceptNext(AcceptorAt(c, slot), ballot, v), k);
      case Accepted(to, slot, ack) => OnAcceptedKnown(view, c, slot, ack, k);
      case Decide(node, slot, id) =>
        assert KnownOption(AcceptorAt(c, slot).maxValue, k);
        if AcceptorAt(c, slot).maxValue.Some? { AddChosenKnown(c, slot, AcceptorAt(c, slot).maxValue.value, k); }
      case Learn(node, slot) => {}
      case Teach(node, slot, v) => AddChosenKnown(c, slot, v, k);
      case Commit(node, v) => CommitValueKnown(view, c, v, k);
    }
  }

  lemma LocalCommitKnown(view: View, c: CaptainState, data: string, k: set<PropValue>)
    requires KnownNode(c, k) && PropValue(c.valueId + NODE_SPAN, data) in k
    ensures KnownOutcome(LocalCommit(view, c, data), k)
  {
    hide CommitValue, KnownProposer;
    var id := c.valueId + NODE_SPAN;
    var v := PropValue(id, data);
    CommitValueKnown(view, c.(valueId := id, issued := c.issued + [v]), v, k);
  }
}
