/**
 What a run can make of one node that proposes, when every message it needs arrives: the runs of
 this module are built event by event, from any state without crashed nodes.
 */
module Progress {
  import opened Counting
  import opened PaxosTypes
  import opened Acceptors
  import opened Proposers
  import opened CaptainSpec
  import opened CaptainInvariant
  import opened Protocol
  import opened SystemInvariant
  import opened ValueOrigin
  import SlotRefinement
  import Synod

  lemma ReachNext(cfg: Config, d: DistState, d': DistState, e: Event)
    requires Reachable(cfg, d) && Next(cfg, d, d', e)
    ensures Reachable(cfg, d')
  {
    hide Next;
    var states, events :| Run(cfg, states, events) && states[|states| - 1] == d;
    var states', events' := states + [d'], events + [e];
    assert Run(cfg, states', events');
    assert states'[|states'| - 1] == d';
  }

  function First(x: nat): nat { NODE_SPAN + x }

  /** A reachable state in which no node has crashed. */
  ghost predicate Up(cfg: Config, d: DistState) {
    WellFormed(cfg) && Reachable(cfg, d) && |d.nodes| == |cfg| &&
    forall p :: 0 <= p < |cfg| ==> d.nodes[p].work
  }

  // ---------------------------------------------------------------- requests reach every acceptor

  ghost function A(d: DistState, p: nat, s: nat): AcceptorState
    requires p < |d.nodes|
  {
    AcceptorAt(d.nodes[p], s)
  }

  /** Nothing has changed but acceptors of the slot, and messages were added. */
  ghost predicate OnlyAcceptors(d: DistState, d': DistState, s: nat) {
    |d'.nodes| == |d.nodes| && d.net <= d'.net &&
    (forall p :: 0 <= p < |d.nodes| ==> d'.nodes[p] == d.nodes[p].(acceptors := d'.nodes[p].acceptors)) &&
    (forall p, t: nat :: 0 <= p < |d.nodes| && t != s ==> A(d', p, t) == A(d, p, t))
  }

  lemma OnlyAcceptorsTwice(d: DistState, d': DistState, d'': DistState, s: nat)
    requires OnlyAcceptors(d, d', s) && OnlyAcceptors(d', d'', s)
    ensures OnlyAcceptors(d, d'', s)
  {
    hide AcceptorAt;
  }

  lemma OnePrepare(cfg: Config, d: DistState, x: nat, s: nat, b: nat, p: nat) returns (d': DistState)
    requires Up(cfg, d) && Prepare(x, s, b) in d.net && p < |cfg|
    ensures Up(cfg, d') && OnlyAcceptors(d, d', s) && A(d', p, s) == PrepareNext(A(d, p, s), b)
    ensures forall q :: 0 <= q < |cfg| && q != p ==> A(d', q, s) == A(d, q, s)
    ensures Promise(x, s, PromiseFor(A(d, p, s), p, b)) in d'.net
  {
    hide PrepareNext, PromiseFor;
    var e := Delivers(p, Prepare(x, s, b));
    assert ValidView(cfg, p, cfg[p]);
    var o := OnPrepare(cfg[p], d.nodes[p], x, s, b);
    d' := Apply(d, p, o);
    ReachNext(cfg, d, d', e);
    assert o.sent == [Promise(x, s, PromiseFor(A(d, p, s), p, b))];
  }

  /** The first `k` nodes answer the prepare request. */
  lemma {:induction false} Prepares(cfg: Config, d: DistState, x: nat, s: nat, b: nat, k: nat) returns (d': DistState)
    requires Up(cfg, d) && Prepare(x, s, b) in d.net && k <= |cfg|
    ensures Up(cfg, d') && OnlyAcceptors(d, d', s)
    ensures forall p: nat :: p < |cfg| ==> A(d', p, s) == if p < k then PrepareNext(A(d, p, s), b) else A(d, p, s)
    ensures forall p: nat :: p < k ==> Promise(x, s, PromiseFor(A(d, p, s), p, b)) in d'.net
  {
    hide PrepareNext, PromiseFor, AcceptorAt, Reachable;
    d' := d;
    if k > 0 {
      var u := Prepares(cfg, d, x, s, b, k - 1);
      d' := OnePrepare(cfg, u, x, s, b, k - 1);
      OnlyAcceptorsTwice(d, u, d', s);
    }
  }

  lemma OneAccept(cfg: Config, d: DistState, x: nat, s: nat, b: nat, v: PropValue, p: nat) returns (d': DistState)
    requires Up(cfg, d) && Accept(x, s, b, v) in d.net && p < |cfg|
    ensures Up(cfg, d') && OnlyAcceptors(d, d', s) && A(d', p, s) == AcceptNext(A(d, p, s), b, v)
    ensures forall q :: 0 <= q < |cfg| && q != p ==> A(d', q, s) == A(d, q, s)
    ensures Accepted(x, s, AcceptAckFor(A(d, p, s), p, b)) in d'.net
  {
    hide AcceptNext, AcceptAckFor;
    var e := Delivers(p, Accept(x, s, b, v));
    assert ValidView(cfg, p, cfg[p]);
    var o := OnAccept(cfg[p], d.nodes[p], x, s, b, v);
    d' := Apply(d, p, o);
    ReachNext(cfg, d, d', e);
    assert o.sent == [Accepted(x, s, AcceptAckFor(A(d, p, s), p, b))];
  }

  /** The first `k` nodes answer the accept request. */
  lemma {:induction false} Accepts(cfg: Config, d: DistState, x: nat, s: nat, b: nat, v: PropValue, k: nat)
    returns (d': DistState)
    requires Up(cfg, d) && Accept(x, s, b, v) in d.net && k <= |cfg|
    ensures Up(cfg, d') && OnlyAcceptors(d, d', s)
    ensures forall p: nat :: p < |cfg| ==> A(d', p, s) == if p < k then AcceptNext(A(d, p, s), b, v) else A(d, p, s)
    ensures forall p: nat :: p < k ==> Accepted(x, s, AcceptAckFor(A(d, p, s), p, b)) in d'.net
  {
    hide AcceptNext, AcceptAckFor, AcceptorAt, Reachable;
    d' := d;
    if k > 0 {
      var u := Accepts(cfg, d, x, s, b, v, k - 1);
      d' := OneAccept(cfg, u, x, s, b, v, k - 1);
      OnlyAcceptorsTwice(d, u, d', s);
    }
  }

  // ---------------------------------------------------------------- one proposer at work

  /** Node `x` runs one proposer, in its latest slot, and no value waits. */
  ghost predicate Holding(d: DistState, x: nat, s: nat, info: InfoState) {
    x < |d.nodes| && d.nodes[x].proposers == map[s := info] && d.nodes[x].maxSlot == s >= 1 && d.nodes[x].toCommit == []
  }

  /** Node `x` has moved, and nobody else; acceptors are as they were. */
  ghost predicate OnlyNode(d: DistState, d': DistState, x: nat) {
    x < |d.nodes| == |d'.nodes| && d.net <= d'.net &&
    (forall p :: 0 <= p < |d.nodes| && p != x ==> d'.nodes[p] == d.nodes[p]) &&
    d'.nodes[x].acceptors == d.nodes[x].acceptors && d'.nodes[x].valueId == d.nodes[x].valueId
  }

  /** First phase at the ballot, with no acks yet and the prepare request sent. */
  ghost predicate InFirst(net: set<Message>, x: nat, s: nat, info: InfoState, b: nat) {
    var p := info.proposer;
    info.status.INIT? && p.currBallot == b && p.currValue.None? && p.ackPrepare == map[] && p.ackAccept == map[] &&
    Prepare(x, s, b) in net
  }

  /** Second phase at the ballot, with no votes yet and the accept request sent. */
  ghost predicate InSecond(net: set<Message>, x: nat, s: nat, info: InfoState, b: nat, v: PropValue) {
    var p := info.proposer;
    info.status.PHASEII? && p.currBallot == b && p.currValue == Some(v) && p.ackAccept == map[] &&
    Accept(x, s, b, v) in net
  }

  /** The proposer is for the same value, and has heard of no other one if `own`. */
  ghost predicate Same(info: InfoState, info': InfoState, own: bool) {
    info'.proposer.initValue == info.proposer.initValue &&
    (own ==> KnownOption(info'.proposer.maxValue, {info.proposer.initValue}))
  }

  /** Answers of all nodes to the prepare request at the ballot. */
  ghost predicate Answers(acks: seq<PromiseAck>, b: nat) {
    forall i :: 0 <= i < |acks| ==> acks[i].node == i && acks[i].ballot == b
  }

  /** The promises of the nodes below `k` are filed. */
  ghost predicate Collecting(info: InfoState, b: nat, acks: seq<PromiseAck>, k: nat) {
    var p := info.proposer;
    FirstPhase(info.status) && p.currBallot == b && p.currValue.None? && p.ackAccept == map[] &&
    p.ackPrepare.Keys == Interval(0, k) && k <= |acks| &&
    forall i :: i in p.ackPrepare ==> p.ackPrepare[i] == acks[i]
  }

  ghost predicate OwnOnly(info: InfoState, acks: seq<PromiseAck>) {
    KnownOption(info.proposer.maxValue, {info.proposer.initValue}) &&
    forall i :: 0 <= i < |acks| ==> KnownOption(acks[i].maxValue, {info.proposer.initValue})
  }

  /** A quorum has answered: the proposer is in its second phase, or over again. */
  ghost predicate Decided(view: View, s: nat, info: InfoState, info': InfoState, sent: seq<Message>, b: nat, own: bool,
      granted: bool) {
    var p := info'.proposer;
    Same(info, info', own) && p.ackAccept == map[] &&
    if info'.status.PHASEII? then
      p.currBallot == b && p.currValue.Some? && sent == [Accept(view.whoami, s, b, p.currValue.value)] &&
      (own ==> p.currValue.value == info.proposer.initValue)
    else
      info'.status.INIT? && p.currBallot == b + NODE_SPAN && p.currValue.None? && p.ackPrepare == map[] &&
      sent == [Prepare(view.whoami, s, b + NODE_SPAN)] && !granted
  }

  /** The values the proposer has heard of before or hears of in the answers. */
  ghost function Heard(info: InfoState, acks: seq<PromiseAck>): set<PropValue> {
    (if info.proposer.maxValue.Some? then {info.proposer.maxValue.value} else {}) +
    set i | 0 <= i < |acks| && acks[i].maxValue.Some? :: acks[i].maxValue.value
  }

  /** All granted answers carry the id, and no other one was heard of. */
  ghost predicate Carries(info: InfoState, acks: seq<PromiseAck>, id: nat) {
    (info.proposer.maxValue.Some? ==> info.proposer.maxValue.value.id == id) &&
    forall i :: 0 <= i < |acks| ==>
      (acks[i].maxValue.Some? ==> acks[i].maxValue.value.id == id) && (acks[i].reply ==> acks[i].maxValue.Some?)
  }

  /** What RS mode needs to go on: no value at all, or the same one everywhere and enough nodes in a quorum. */
  ghost predicate Decodable(view: View, info: InfoState, acks: seq<PromiseAck>) {
    view.mode.RS? ==>
      Heard(info, acks) == {} || (view.nodes <= view.qr + view.rsF && exists id :: Carries(info, acks, id))
  }

  lemma HighestHeard(view: View, info: InfoState, acks: seq<PromiseAck>, filed: map<nat, PromiseAck>)
    requires forall i :: i in filed ==> i < |acks| && filed[i] == acks[i]
    ensures KnownOption(Highest(filed, view.nodes, Report(info.proposer.maxBallot, info.proposer.maxValue)).value,
      Heard(info, acks))
  {
    hide Highest;
    HighestKnown(filed, view.nodes, Report(info.proposer.maxBallot, info.proposer.maxValue), Heard(info, acks));
  }

  /** A granted quorum can be decoded. */
  lemma EnoughToDecode(view: View, info: InfoState, acks: seq<PromiseAck>, filed: map<nat, PromiseAck>)
    requires view.mode.RS? && Decodable(view, info, acks) && |filed| == view.qr <= |Granted(filed)|
    requires forall i :: i in filed ==> i < |acks| && filed[i] == acks[i]
    ensures var best := Highest(filed, view.nodes, Report(info.proposer.maxBallot, info.proposer.maxValue));
      best.value.None? || view.nodes - |Shares(filed, best.value.value.id)| <= view.rsF
  {
    hide Highest;
    var best := Highest(filed, view.nodes, Report(info.proposer.maxBallot, info.proposer.maxValue));
    HighestHeard(view, info, acks, filed);
    assert |filed| == |filed.Keys|;
    SubsetSize(Granted(filed), filed.Keys);
    SubsetOfEqualSize(Granted(filed), filed.Keys);
    if best.value.Some? {
      var id :| Carries(info, acks, id);
      assert best.value.value.id == id;
      assert Shares(filed, id) == filed.Keys;
    }
  }

  /** What a promise that completes a quorum leads to. */
  lemma QuorumOutcome(view: View, p: ProposerState, m: PromiseAck)
    requires m.ballot >= p.currBallot && p.currValue.None? && |p.ackPrepare[m.node := m]| >= view.qr
    requires var acks := p.ackPrepare[m.node := m];
      var best := Highest(acks, view.nodes, Report(p.maxBallot, p.maxValue));
      view.mode.RS? && |Granted(acks)| >= view.qr ==>
        best.value.None? || view.nodes - |Shares(acks, best.value.value.id)| <= view.rsF
    ensures var acks := p.ackPrepare[m.node := m];
      var best := Highest(acks, view.nodes, Report(p.maxBallot, p.maxValue));
      var q := p.(ackPrepare := acks, maxBallot := best.ballot, maxValue := best.value);
      AfterPromise(view, p, m) ==
        if |Granted(acks)| < view.qr then (q, RESTART)
        else (q.(currValue := if best.value.None? then Some(p.initValue) else best.value), CONTINUE)
  {
    hide Highest, Granted, Shares;
  }

  lemma PromiseFiled(view: View, p: ProposerState, m: PromiseAck)
    requires m.ballot >= p.currBallot && p.currValue.None? && |p.ackPrepare[m.node := m]| < view.qr
    ensures AfterPromise(view, p, m) == (p.(ackPrepare := p.ackPrepare[m.node := m]), NOT_ENOUGH)
  {
    hide Highest, Granted, Shares;
  }

  lemma Filed(info: InfoState, b: nat, acks: seq<PromiseAck>, k: nat)
    requires Collecting(info, b, acks, k) && k < |acks| && Answers(acks, b)
    ensures var filed := info.proposer.ackPrepare[k := acks[k]];
      |filed| == k + 1 && filed.Keys == Interval(0, k + 1) && forall i :: i in filed ==> filed[i] == acks[i]
  {
    var filed := info.proposer.ackPrepare[k := acks[k]];
    assert filed.Keys == Interval(0, k) + {k} == Interval(0, k + 1);
    assert |filed| == |filed.Keys|;
  }

  /** What a promise leads to that completes the quorum. */
  ghost predicate QuorumTaken(view: View, s: nat, info: InfoState, info': InfoState, sent: seq<Message>, b: nat,
      acks: seq<PromiseAck>, own: bool, granted: bool) {
    Decided(view, s, info, info', sent, b, own, granted) &&
    KnownOption(info'.proposer.maxValue, Heard(info, acks)) &&
    (info'.status.PHASEII? ==> view.qr <= |acks| && forall i :: 0 <= i < view.qr ==> acks[i].reply)
  }

  lemma LastPromise(view: View, s: nat, info: InfoState, b: nat, acks: seq<PromiseAck>, k: nat, own: bool,
      granted: bool)
    requires Decodable(view, info, acks) && Collecting(info, b, acks, k) && k < |acks| && k + 1 == view.qr && b > 0
    requires Answers(acks, b) && (own ==> OwnOnly(info, acks))
    requires granted ==> forall i :: 0 <= i < |acks| ==> acks[i].reply
    ensures var (info', sent) := PromiseInfo(view, s, info, acks[k]);
      QuorumTaken(view, s, info, info', sent, b, acks, own, granted)
  {
    hide Granted, Highest, Shares, KnownOption, AfterPromise, Decodable, Heard, Interval, Carries;
    var p := info.proposer;
    Filed(info, b, acks, k);
    var filed := p.ackPrepare[k := acks[k]];
    if view.mode.RS? && |Granted(filed)| >= view.qr { EnoughToDecode(view, info, acks, filed); }
    QuorumOutcome(view, p, acks[k]);
    HighestHeard(view, info, acks, filed);
    GrantedAll(filed, acks, k + 1);
    if own {
      HighestKnown(filed, view.nodes, Report(p.maxBallot, p.maxValue), {p.initValue});
      OwnIsInit(Highest(filed, view.nodes, Report(p.maxBallot, p.maxValue)).value, p.initValue);
    }
    if granted {
      AllGranted(filed);
    }
  }

  lemma PromiseTaken(view: View, s: nat, info: InfoState, b: nat, acks: seq<PromiseAck>, k: nat, own: bool,
      granted: bool)
    requires Decodable(view, info, acks) && Collecting(info, b, acks, k) && k < |acks| && k < view.qr && b > 0
    requires Answers(acks, b) && (own ==> OwnOnly(info, acks))
    requires granted ==> forall i :: 0 <= i < |acks| ==> acks[i].reply
    ensures var (info', sent) := PromiseInfo(view, s, info, acks[k]);
      if k + 1 < view.qr then
        Collecting(info', b, acks, k + 1) && sent == [] &&
        info'.proposer.initValue == info.proposer.initValue && info'.proposer.maxValue == info.proposer.maxValue
      else QuorumTaken(view, s, info, info', sent, b, acks, own, granted)
  {
    hide AfterPromise, Decodable, Decided, Heard;
    Filed(info, b, acks, k);
    if k + 1 < view.qr {
      PromiseFiled(view, info.proposer, acks[k]);
    } else {
      LastPromise(view, s, info, b, acks, k, own, granted);
    }
  }

  lemma OwnIsInit(o: Option<PropValue>, v: PropValue)
    requires KnownOption(o, {v})
    ensures o.Some? ==> o.value == v
  {}

  lemma GrantedAll(filed: map<nat, PromiseAck>, acks: seq<PromiseAck>, k: nat)
    requires filed.Keys == Interval(0, k) && k <= |acks| && forall i :: i in filed ==> filed[i] == acks[i]
    ensures |Granted(filed)| >= k ==> forall i :: 0 <= i < k ==> acks[i].reply
  {
    SubsetSize(Granted(filed), filed.Keys);
    if |Granted(filed)| >= k {
      SubsetOfEqualSize(Granted(filed), filed.Keys);
      forall i | 0 <= i < k
        ensures acks[i].reply
      {
        assert i in Granted(filed);
      }
    }
  }

  lemma AllGranted(acks: map<nat, PromiseAck>)
    requires forall i :: i in acks ==> acks[i].reply
    ensures |Granted(acks)| == |acks|
  {
    assert Granted(acks) == acks.Keys;
  }

  /** Node `x` handles a message about its slot. */
  lemma NodeHandles(cfg: Config, d: DistState, x: nat, m: Message, o: Outcome) returns (d': DistState)
    requires Up(cfg, d) && x < |cfg| && m in d.net && Reaches(m, x) && o == HandleMsg(cfg[x], d.nodes[x], m)
    requires o.state.work && o.state.acceptors == d.nodes[x].acceptors && o.state.valueId == d.nodes[x].valueId
    ensures Up(cfg, d') && OnlyNode(d, d', x) && d'.nodes[x] == o.state && forall y :: y in o.sent ==> y in d'.net
  {
    hide HandleMsg;
    d' := Apply(d, x, o);
    ReachNext(cfg, d, d', Delivers(x, m));
  }

  lemma OnlyNodeTwice(d: DistState, d': DistState, d'': DistState, x: nat)
    requires OnlyNode(d, d', x) && OnlyNode(d', d'', x)
    ensures OnlyNode(d, d'', x)
  {}

  /** Node `x` is handed the promises from `k` on until a quorum is there. */
  lemma {:induction false} HandPromises(cfg: Config, d: DistState, x: nat, s: nat, info: InfoState, b: nat,
      acks: seq<PromiseAck>, k: nat, own: bool, granted: bool) returns (d': DistState, info': InfoState)
    requires Up(cfg, d) && x < |cfg| && Holding(d, x, s, info) && b > 0
    requires |acks| == |cfg| && Answers(acks, b) && Collecting(info, b, acks, k) && k < cfg[x].qr <= |cfg|
    requires forall p :: 0 <= p < |cfg| ==> Promise(x, s, acks[p]) in d.net
    requires (own ==> OwnOnly(info, acks)) && (granted ==> forall i :: 0 <= i < |acks| ==> acks[i].reply)
    requires Decodable(cfg[x], info, acks)
    ensures KnownOption(info'.proposer.maxValue, Heard(info, acks))
    ensures info'.proposer.currValue.Some? ==> forall i :: 0 <= i < cfg[x].qr ==> acks[i].reply
    ensures Up(cfg, d') && OnlyNode(d, d', x) && Holding(d', x, s, info') && Same(info, info', own)
    ensures (info'.proposer.currValue.Some? && (own ==> info'.proposer.currValue.value == info.proposer.initValue) &&
        InSecond(d'.net, x, s, info', b, info'.proposer.currValue.value)) ||
      (!granted && InFirst(d'.net, x, s, info', b + NODE_SPAN))
    decreases cfg[x].qr - k
  {
    hide PromiseInfo, Reachable, Answers, Collecting, OwnOnly, Carries;
    assert ValidView(cfg, x, cfg[x]);
    PromiseTaken(cfg[x], s, info, b, acks, k, own, granted);
    var (next, sent) := PromiseInfo(cfg[x], s, info, acks[k]);
    var o := OnPromise(cfg[x], d.nodes[x], s, acks[k]);
    assert FirstPhase(info.status) by { CollectingFirst(info, b, acks, k); }
    assert o == Outcome(d.nodes[x].(proposers := d.nodes[x].proposers[s := next]), sent);
    d' := NodeHandles(cfg, d, x, Promise(x, s, acks[k]), o);
    assert Holding(d', x, s, next);
    info' := next;
    if k + 1 < cfg[x].qr {
      assert own ==> OwnOnly(next, acks) by { OwnOnlyStays(info, next, acks); }
      HeardStays(info, next, acks);
      var u := d';
      d', info' := HandPromises(cfg, u, x, s, next, b, acks, k + 1, own, granted);
      OnlyNodeTwice(d, u, d', x);
    }
  }

  lemma CollectingFirst(info: InfoState, b: nat, acks: seq<PromiseAck>, k: nat)
    requires Collecting(info, b, acks, k)
    ensures FirstPhase(info.status)
  {}

  lemma HeardStays(info: InfoState, info': InfoState, acks: seq<PromiseAck>)
    requires info'.proposer.maxValue == info.proposer.maxValue
    ensures Heard(info', acks) == Heard(info, acks)
    ensures forall id :: Carries(info, acks, id) ==> Carries(info', acks, id)
  {}

  lemma OwnOnlyStays(info: InfoState, info': InfoState, acks: seq<PromiseAck>)
    requires info'.proposer.initValue == info.proposer.initValue && info'.proposer.maxValue == info.proposer.maxValue
    ensures OwnOnly(info, acks) ==> OwnOnly(info', acks)
  {}

  /** The votes of the nodes below `k` are filed. */
  ghost predicate Gathering(info: InfoState, b: nat, votes: seq<AcceptAck>, k: nat) {
    var p := info.proposer;
    info.status.PHASEII? && p.currBallot == b && p.currValue.Some? &&
    p.ackAccept.Keys == Interval(0, k) && k <= |votes| && forall i :: i in p.ackAccept ==> p.ackAccept[i] == votes[i]
  }

  /** Answers of all nodes to the accept request at the ballot. */
  ghost predicate Ballots(votes: seq<AcceptAck>, b: nat) {
    forall i :: 0 <= i < |votes| ==> votes[i].node == i && votes[i].ballot == b
  }

  /** Node `x` proposes a value again, in the next slot. */
  ghost predicate Again(d: DistState, x: nat, s: nat, init: PropValue, info: InfoState) {
    Holding(d, x, s + 1, info) && info.proposer == Prepared(NewProposer(init), x) &&
      InFirst(d.net, x, s + 1, info, First(x))
  }

  /** The proposer of the slot is done: its value was chosen there, or it starts again in the next slot. */
  ghost predicate Finished(d: DistState, x: nat, s: nat, init: PropValue, own: bool) {
    x < |d.nodes| && d.nodes[x].toCommit == [] &&
    ((d.nodes[x].proposers == map[] && d.nodes[x].maxSlot == s) || (!own && exists info :: Again(d, x, s, init, info)))
  }

  lemma VoteFiled(info: InfoState, b: nat, votes: seq<AcceptAck>, k: nat)
    requires Gathering(info, b, votes, k) && k < |votes|
    ensures var filed := info.proposer.ackAccept[k := votes[k]];
      |filed| == k + 1 && filed.Keys == Interval(0, k + 1) && forall i :: i in filed ==> filed[i] == votes[i]
  {
    var filed := info.proposer.ackAccept[k := votes[k]];
    assert filed.Keys == Interval(0, k) + {k} == Interval(0, k + 1);
    assert |filed| == |filed.Keys|;
  }

  lemma VoteOutcome(view: View, info: InfoState, b: nat, votes: seq<AcceptAck>, k: nat)
    requires Gathering(info, b, votes, k) && k < |votes| && Ballots(votes, b)
    ensures var p := info.proposer; var filed := p.ackAccept[k := votes[k]]; var q := p.(ackAccept := filed);
      filed.Keys == Interval(0, k + 1) && (forall i :: i in filed ==> filed[i] == votes[i]) &&
      AfterAccepted(view, p, votes[k]) ==
        if k + 1 < view.qw then (q, NOT_ENOUGH) else if |Votes(filed)| >= view.qw then (q, CHOOSE) else (q, RESTART)
  {
    hide Votes, Interval;
    VoteFiled(info, b, votes, k);
  }

  lemma AllVoted(votes: map<nat, AcceptAck>)
    requires forall i :: i in votes ==> votes[i].reply
    ensures |Votes(votes)| == |votes|
  {
    assert Votes(votes) == votes.Keys;
  }

  /** A vote is filed: still gathering, in favour, or over again. */
  lemma VoteTaken(view: View, x: nat, s: nat, info: InfoState, b: nat, votes: seq<AcceptAck>, k: nat, own: bool,
      granted: bool)
    requires Gathering(info, b, votes, k) && k < |votes| && Ballots(votes, b) && k < view.qw && b > 0
    requires view.qw <= |votes| && (granted ==> forall i :: 0 <= i < view.qw ==> votes[i].reply)
    requires own ==> KnownOption(info.proposer.maxValue, {info.proposer.initValue})
    ensures var (p, r) := AfterAccepted(view, info.proposer, votes[k]);
      var next, over := info.(proposer := p), info.(proposer := Restarted(p, x), status := INIT);
      p.initValue == info.proposer.initValue && p.currValue == info.proposer.currValue && r != DROP && r != CONTINUE &&
      (r == NOT_ENOUGH ==> k + 1 < view.qw && Gathering(next, b, votes, k + 1) && Same(info, next, own)) &&
      (r == RESTART ==>
        !granted && Same(info, over, own) && InFirst({Prepare(x, s, b + NODE_SPAN)}, x, s, over, b + NODE_SPAN)) &&
      (k + 1 < view.qw ==> r == NOT_ENOUGH)
  {
    hide Votes, KnownOption, AfterAccepted;
    VoteOutcome(view, info, b, votes, k);
    var filed := info.proposer.ackAccept[k := votes[k]];
    if granted {
      AllVoted(filed);
      assert |filed| == |filed.Keys| == k + 1;
    }
  }

  /** How a chosen slot ends for a node with nothing else to do. */
  lemma Ends(view: View, c: CaptainState, s: nat, info: InfoState, v: PropValue)
    requires c.proposers.Keys == {s} && c.maxSlot == s && c.toCommit == []
    ensures var a := Announce(view, c, s, info, v); var o := Replace(view, a.state, s, info, v);
      var p := Prepared(NewProposer(info.proposer.initValue), view.whoami);
      o.state.work == c.work && o.state.acceptors == c.acceptors && o.state.valueId == c.valueId &&
      o.state.toCommit == [] &&
      (v.id == info.proposer.initValue.id ==> o.state.proposers == map[] && o.state.maxSlot == s) &&
      (v.id != info.proposer.initValue.id ==>
        o.state.proposers == map[s + 1 := InfoState(info.tryTime + 1, p, INIT)] && o.state.maxSlot == s + 1 &&
        o.sent == [Prepare(view.whoami, s + 1, p.currBallot)])
  {
    hide AddChosen;
    var e := Told(c, info, v);
    AddChosenKeeps(e, s, v);
    assert c.proposers - {s} == map[];
  }

  /** Node `x` handles a vote that completes a quorum in favour. */
  lemma Concludes(cfg: Config, d: DistState, x: nat, s: nat, info: InfoState, b: nat, votes: seq<AcceptAck>, k: nat,
      own: bool)
    returns (d': DistState)
    requires Up(cfg, d) && x < |cfg| && Holding(d, x, s, info) && Gathering(info, b, votes, k) && k < |votes|
    requires Accepted(x, s, votes[k]) in d.net && AfterAccepted(cfg[x], info.proposer, votes[k]).1 == CHOOSE
    requires own ==> info.proposer.currValue == Some(info.proposer.initValue)
    ensures Up(cfg, d') && OnlyNode(d, d', x) && Finished(d', x, s, info.proposer.initValue, own)
  {
    hide AfterAccepted, Announce, Replace, Reachable;
    assert ValidView(cfg, x, cfg[x]);
    var c := d.nodes[x];
    var p := AfterAccepted(cfg[x], info.proposer, votes[k]).0;
    SlotRefinement.ChooseHasValue(cfg[x], info.proposer, votes[k]);
    var v := p.currValue.value;
    var e := c.(proposers := c.proposers[s := info.(proposer := p, status := CHOSEN)]);
    Ends(cfg[x], e, s, info, v);
    var a := Announce(cfg[x], e, s, info, v);
    var r := Replace(cfg[x], a.state, s, info, v);
    d' := NodeHandles(cfg, d, x, Accepted(x, s, votes[k]), Outcome(r.state, a.sent + r.sent));
    if v.id != info.proposer.initValue.id {
      var next := InfoState(info.tryTime + 1, Prepared(NewProposer(info.proposer.initValue), x), INIT);
      assert Again(d', x, s, info.proposer.initValue, next);
    }
  }

  /** The value is chosen when a quorum of votes has come in. */
  lemma VotesChoose(cfg: Config, net: set<Message>, x: nat, s: nat, info: InfoState, b: nat, votes: seq<AcceptAck>,
      k: nat)
    requires WellFormed(cfg) && x < |cfg| && |votes| == |cfg| && Owner(b) == x
    requires Gathering(info, b, votes, k) && k < |votes| && Ballots(votes, b) && k < cfg[x].qw
    requires Accept(x, s, b, info.proposer.currValue.value) in net
    requires forall p :: 0 <= p < |cfg| ==> Accepted(x, s, votes[p]) in net
    requires AfterAccepted(cfg[x], info.proposer, votes[k]).1 == CHOOSE
    ensures ChosenIn(cfg, net, s, info.proposer.currValue.value)
  {
    hide AfterAccepted;
    assert ValidView(cfg, x, cfg[x]);
    VoteOutcome(cfg[x], info, b, votes, k);
    var filed := info.proposer.ackAccept[k := votes[k]];
    var c := ParamsOf(cfg, s);
    forall i | i in Votes(filed)
      ensures i in Synod.Voters(c, net, b)
    {
      assert votes[i] == AcceptAck(i, b, true);
    }
    SubsetSize(Votes(filed), Synod.Voters(c, net, b));
    assert Synod.ChosenAt(c, net, b, info.proposer.currValue.value);
  }

  /** Node `x` is handed the votes from `k` on until a quorum is there: the slot ends, or the proposer starts over. */
  lemma {:induction false} HandVotes(cfg: Config, d: DistState, x: nat, s: nat, info: InfoState, b: nat,
      votes: seq<AcceptAck>, k: nat, own: bool, granted: bool) returns (d': DistState, info': InfoState, done: bool)
    requires Up(cfg, d) && x < |cfg| && Holding(d, x, s, info)
    requires |votes| == |cfg| && Ballots(votes, b) && Gathering(info, b, votes, k) && k < cfg[x].qw <= |cfg| && b > 0
    requires forall p :: 0 <= p < |cfg| ==> Accepted(x, s, votes[p]) in d.net
    requires own ==> info.proposer.currValue == Some(info.proposer.initValue)
    requires own ==> KnownOption(info.proposer.maxValue, {info.proposer.initValue})
    requires granted ==> forall i :: 0 <= i < cfg[x].qw ==> votes[i].reply
    requires Owner(b) == x && Accept(x, s, b, info.proposer.currValue.value) in d.net
    ensures Up(cfg, d') && OnlyNode(d, d', x) && (granted ==> done)
    ensures done ==> Finished(d', x, s, info.proposer.initValue, own)
    ensures done ==> ChosenIn(cfg, d'.net, s, info.proposer.currValue.value)
    ensures !done ==> Holding(d', x, s, info') && Same(info, info', own) && InFirst(d'.net, x, s, info', b + NODE_SPAN)
    decreases cfg[x].qw - k
  {
    hide AfterAccepted, Announce, Replace, Reachable, KnownOption, Gathering, Ballots, Finished, Restarted, ChosenIn,
      Owner;
    assert ValidView(cfg, x, cfg[x]);
    GatheringSecond(info, b, votes, k);
    VoteTaken(cfg[x], x, s, info, b, votes, k, own, granted);
    var (p, r) := AfterAccepted(cfg[x], info.proposer, votes[k]);
    if r == CHOOSE {
      d' := Concludes(cfg, d, x, s, info, b, votes, k, own);
      VotesChoose(cfg, d'.net, x, s, info, b, votes, k);
      done, info' := true, info;
    } else {
      var o := OnAccepted(cfg[x], d.nodes[x], s, votes[k]);
      d' := NodeHandles(cfg, d, x, Accepted(x, s, votes[k]), o);
      done := false;
      if r == RESTART {
        info' := info.(proposer := Restarted(p, x), status := INIT);
        assert Holding(d', x, s, info');
      } else {
        var u, next := d', info.(proposer := p);
        assert Holding(u, x, s, next);
        d', info', done := HandVotes(cfg, u, x, s, next, b, votes, k + 1, own, granted);
        OnlyNodeTwice(d, u, d', x);
      }
    }
  }

  lemma GatheringSecond(info: InfoState, b: nat, votes: seq<AcceptAck>, k: nat)
    requires Gathering(info, b, votes, k)
    ensures info.status.PHASEII? && info.proposer.currValue.Some?
  {}

  // ---------------------------------------------------------------- a proposer left alone gets through

  /** Only node `x` and acceptors of the slot have changed. */
  ghost predicate Moved(d: DistState, d': DistState, x: nat, s: nat) {
    x < |d.nodes| == |d'.nodes| && d.net <= d'.net && d'.nodes[x].valueId == d.nodes[x].valueId &&
    (forall p :: 0 <= p < |d.nodes| && p != x ==> d'.nodes[p] == d.nodes[p].(acceptors := d'.nodes[p].acceptors)) &&
    (forall p, t: nat :: 0 <= p < |d.nodes| && t != s ==> A(d', p, t) == A(d, p, t))
  }

  lemma AcceptorsThenNode(d: DistState, u: DistState, d': DistState, x: nat, s: nat)
    requires OnlyAcceptors(d, u, s) && OnlyNode(u, d', x)
    ensures Moved(d, d', x, s) && forall p :: 0 <= p < |d.nodes| ==> A(d', p, s) == A(u, p, s)
  {}

  lemma MovedTwice(d: DistState, u: DistState, d': DistState, x: nat, s: nat)
    requires Moved(d, u, x, s) && Moved(u, d', x, s)
    ensures Moved(d, d', x, s)
  {
    hide AcceptorAt;
  }

  /** No acceptor of the slot has promised more than `top`. */
  ghost predicate UpTo(d: DistState, s: nat, top: nat) {
    forall p :: 0 <= p < |d.nodes| ==> A(d, p, s).maxProposed <= top
  }

  /** The acceptors of the slot hold no value but this one. */
  ghost predicate Holds(d: DistState, s: nat, v: PropValue) {
    forall p :: 0 <= p < |d.nodes| ==> KnownOption(A(d, p, s).maxValue, {v})
  }

  /** What is known of a slot whose proposer has heard of no other value. */
  ghost predicate Alone(d: DistState, s: nat, info: InfoState) {
    Holds(d, s, info.proposer.initValue) && KnownOption(info.proposer.maxValue, {info.proposer.initValue})
  }

  /** Neither the proposer nor an acceptor of the slot has heard of any value. */
  ghost predicate Unheard(d: DistState, s: nat, info: InfoState) {
    info.proposer.maxValue.None? && forall p :: 0 <= p < |d.nodes| ==> A(d, p, s).maxValue.None?
  }

  /** All acceptors of the slot hold a value with the id, and the proposer has heard of no other. */
  ghost predicate AllHold(d: DistState, s: nat, info: InfoState, id: nat) {
    (info.proposer.maxValue.Some? ==> info.proposer.maxValue.value.id == id) &&
    forall p :: 0 <= p < |d.nodes| ==> A(d, p, s).maxValue.Some? && A(d, p, s).maxValue.value.id == id
  }

  /**
   What a lone proposer needs in RS mode: nobody has heard of any value, or a quorum is all but `f`
   nodes, as with the sizes of the code, and all acceptors hold the same id.
   */
  ghost predicate Settled(view: View, d: DistState, s: nat, info: InfoState) {
    view.mode.RS? ==>
      Unheard(d, s, info) || (view.nodes <= view.qr + view.rsF && exists id :: AllHold(d, s, info, id))
  }

  lemma SettledAnswers(view: View, d: DistState, s: nat, info: InfoState, b: nat, acks: seq<PromiseAck>)
    requires Settled(view, d, s, info)
    requires |acks| == |d.nodes| && (forall p :: 0 <= p < |acks| ==> acks[p] == PromiseFor(A(d, p, s), p, b))
    ensures Decodable(view, info, acks)
  {
    hide AcceptorAt;
    if view.mode.RS? && !Unheard(d, s, info) {
      var id :| AllHold(d, s, info, id);
      assert Carries(info, acks, id);
    }
  }

  lemma SettledStays(view: View, d: DistState, d': DistState, s: nat, info: InfoState, info': InfoState, b: nat,
      acks: seq<PromiseAck>)
    requires Settled(view, d, s, info) && |d'.nodes| == |d.nodes| == |acks|
    requires forall p :: 0 <= p < |acks| ==> acks[p] == PromiseFor(A(d, p, s), p, b)
    requires forall p :: 0 <= p < |d.nodes| ==> A(d', p, s).maxValue == A(d, p, s).maxValue
    requires KnownOption(info'.proposer.maxValue, Heard(info, acks))
    ensures Settled(view, d', s, info')
  {
    hide AcceptorAt;
    if view.mode.RS? && !Unheard(d, s, info) {
      var id :| AllHold(d, s, info, id);
      assert AllHold(d', s, info', id);
    }
  }

  /** The first nodes of a write quorum have promised nothing above the ballot. */
  ghost predicate WillVote(cfg: Config, d: DistState, s: nat, b: nat)
    requires |cfg| > 0
  {
    forall p :: 0 <= p < |d.nodes| && p < cfg[0].qw ==> A(d, p, s).maxProposed <= b
  }

  function Larger(a: nat, b: nat): nat { if a < b then b else a }

  lemma FirstRound(cfg: Config, d: DistState, x: nat, s: nat, info: InfoState, b: nat, top: nat, own: bool)
    returns (d': DistState, info': InfoState, second: bool)
    requires Up(cfg, d) && x < |cfg| && Holding(d, x, s, info) && InFirst(d.net, x, s, info, b) && b > 0
    requires 0 < cfg[0].qr && UpTo(d, s, top) && (own ==> Alone(d, s, info))
    requires Settled(cfg[x], d, s, info)
    ensures Up(cfg, d') && Moved(d, d', x, s) && Holding(d', x, s, info') && UpTo(d', s, Larger(top, b))
    ensures info'.proposer.initValue == info.proposer.initValue && (own ==> Alone(d', s, info'))
    ensures second ==>
      info'.proposer.currValue.Some? && InSecond(d'.net, x, s, info', b, info'.proposer.currValue.value)
    ensures second && own ==> info'.proposer.currValue.value == info.proposer.initValue
    ensures !second ==> b <= top && InFirst(d'.net, x, s, info', b + NODE_SPAN)
    ensures !second ==> Settled(cfg[x], d', s, info')
    ensures second && cfg[0].qw <= cfg[0].qr ==> WillVote(cfg, d', s, b)
  {
    hide Reachable, AcceptorAt, Collecting, Answers, OwnOnly, KnownOption, Settled, Decodable, Heard;
    var n := |cfg|;
    assert ValidView(cfg, x, cfg[x]);
    var u := Prepares(cfg, d, x, s, b, n);
    var acks := seq(n, p requires 0 <= p < n => PromiseFor(A(d, p, s), p, b));
    FirstAnswers(d, s, info, b, acks, own);
    assert Holding(u, x, s, info);
    SettledAnswers(cfg[x], d, s, info, b, acks);
    var granted := forall i :: 0 <= i < |acks| ==> acks[i].reply;
    d', info' := HandPromises(cfg, u, x, s, info, b, acks, 0, own, granted);
    AcceptorsThenNode(d, u, d', x, s);
    SettledStays(cfg[x], d, d', s, info, info', b, acks);
    second := info'.proposer.currValue.Some?;
  }

  lemma FirstAnswers(d: DistState, s: nat, info: InfoState, b: nat, acks: seq<PromiseAck>, own: bool)
    requires |acks| == |d.nodes| && (forall p :: 0 <= p < |acks| ==> acks[p] == PromiseFor(A(d, p, s), p, b))
    requires FirstPhase(info.status) && info.proposer.currBallot == b && info.proposer.currValue.None?
    requires info.proposer.ackPrepare == map[] && info.proposer.ackAccept == map[] && (own ==> Alone(d, s, info))
    ensures Answers(acks, b) && Collecting(info, b, acks, 0) && (own ==> OwnOnly(info, acks))
  {}

  lemma SecondRound(cfg: Config, d: DistState, x: nat, s: nat, info: InfoState, b: nat, v: PropValue, top: nat,
      own: bool)
    returns (d': DistState, info': InfoState, done: bool)
    requires Up(cfg, d) && x < |cfg| && Holding(d, x, s, info) && InSecond(d.net, x, s, info, b, v) && b > 0
    requires 0 < cfg[0].qw <= |cfg| && UpTo(d, s, top) && (own ==> Alone(d, s, info) && v == info.proposer.initValue)
    requires Owner(b) == x
    ensures Up(cfg, d') && Moved(d, d', x, s) && (WillVote(cfg, d, s, b) ==> done)
    ensures done ==> Finished(d', x, s, info.proposer.initValue, own) && ChosenIn(cfg, d'.net, s, v)
    ensures !done ==> b < top && Holding(d', x, s, info') && InFirst(d'.net, x, s, info', b + NODE_SPAN)
    ensures !done ==> UpTo(d', s, top) && info'.proposer.initValue == info.proposer.initValue
    ensures !done && own ==> Alone(d', s, info')
  {
    hide Reachable, AcceptorAt, Gathering, Ballots, Finished, ChosenIn, Owner;
    var n := |cfg|;
    assert ValidView(cfg, x, cfg[x]);
    var u := Accepts(cfg, d, x, s, b, v, n);
    var votes := seq(n, p requires 0 <= p < n => AcceptAckFor(A(d, p, s), p, b));
    SecondAnswers(info, b, votes);
    assert Holding(u, x, s, info);
    var granted := forall i :: 0 <= i < cfg[x].qw ==> votes[i].reply;
    d', info', done := HandVotes(cfg, u, x, s, info, b, votes, 0, own, granted);
    AcceptorsThenNode(d, u, d', x, s);
  }

  lemma SecondAnswers(info: InfoState, b: nat, votes: seq<AcceptAck>)
    requires forall p :: 0 <= p < |votes| ==> votes[p].node == p && votes[p].ballot == b
    requires info.status.PHASEII? && info.proposer.currBallot == b && info.proposer.currValue.Some?
    requires info.proposer.ackAccept == map[]
    ensures Ballots(votes, b) && Gathering(info, b, votes, 0)
  {}

  function Gap(top: nat, b: nat): nat { if b < top then top - b else 0 }

  /** Left alone, a proposer in its first phase finishes its slot, with its own value if no other is around. */
  lemma {:induction false} FromFirst(cfg: Config, d: DistState, x: nat, s: nat, info: InfoState, b: nat, top: nat,
      own: bool)
    returns (d': DistState)
    requires Up(cfg, d) && x < |cfg| && Holding(d, x, s, info) && InFirst(d.net, x, s, info, b) && b > 0
    requires 0 < cfg[0].qr && 0 < cfg[0].qw <= |cfg| && UpTo(d, s, top) && (own ==> Alone(d, s, info))
    requires Owner(b) == x && Settled(cfg[x], d, s, info) && (cfg[0].mode.RS? ==> cfg[0].qw <= cfg[0].qr)
    ensures Up(cfg, d') && Moved(d, d', x, s) && Finished(d', x, s, info.proposer.initValue, own)
    ensures own ==> ChosenIn(cfg, d'.net, s, info.proposer.initValue)
    decreases Gap(top + 1, b), 1
  {
    hide Up, Holding, InFirst, InSecond, UpTo, Alone, Moved, Finished, ChosenIn, Settled, WillVote;
    var u, next, second := FirstRound(cfg, d, x, s, info, b, top, own);
    if second {
      d' := FromSecond(cfg, u, x, s, next, b, next.proposer.currValue.value, Larger(top, b), own);
    } else {
      d' := FromFirst(cfg, u, x, s, next, b + NODE_SPAN, Larger(top, b), own);
    }
    MovedTwice(d, u, d', x, s);
  }

  /** The same from the second phase. */
  lemma {:induction false} FromSecond(cfg: Config, d: DistState, x: nat, s: nat, info: InfoState, b: nat, v: PropValue,
      top: nat, own: bool)
    returns (d': DistState)
    requires Up(cfg, d) && x < |cfg| && Holding(d, x, s, info) && InSecond(d.net, x, s, info, b, v) && b > 0
    requires 0 < cfg[0].qr && 0 < cfg[0].qw <= |cfg| && UpTo(d, s, top)
    requires own ==> Alone(d, s, info) && v == info.proposer.initValue
    requires Owner(b) == x && (cfg[0].mode.RS? ==> WillVote(cfg, d, s, b))
    ensures Up(cfg, d') && Moved(d, d', x, s) && Finished(d', x, s, info.proposer.initValue, own)
    ensures own ==> ChosenIn(cfg, d'.net, s, info.proposer.initValue)
    decreases Gap(top, b), 0
  {
    hide Up, Holding, InFirst, InSecond, UpTo, Alone, Moved, Finished, ChosenIn, WillVote;
    var done, next;
    d', next, done := SecondRound(cfg, d, x, s, info, b, v, top, own);
    if !done {
      var u := d';
      NotRS(cfg, u, x, s, next);
      d' := FromFirst(cfg, u, x, s, next, b + NODE_SPAN, top, own);
      MovedTwice(d, u, d', x, s);
    }
  }

  lemma NotRS(cfg: Config, d: DistState, x: nat, s: nat, info: InfoState)
    requires Up(cfg, d) && x < |cfg|
    ensures !cfg[0].mode.RS? ==> Settled(cfg[x], d, s, info)
  {
    assert ValidView(cfg, x, cfg[x]);
  }

  // ---------------------------------------------------------------- where runs start

  /** No acceptor of the slot has heard of any value. */
  ghost predicate Untouched(d: DistState, s: nat) {
    forall p :: 0 <= p < |d.nodes| ==> A(d, p, s).maxAccepted == 0 && A(d, p, s).maxValue.None?
  }

  /** Node `x` has nothing to do, and its latest slot is `s`. */
  ghost predicate Idle(d: DistState, x: nat, s: nat) {
    x < |d.nodes| && d.nodes[x].proposers == map[] && d.nodes[x].maxSlot == s && d.nodes[x].toCommit == [] &&
    Owner(d.nodes[x].valueId) == x
  }

  /** Some ballot is above all that the acceptors of the slot have promised. */
  lemma {:induction false} Top(d: DistState, s: nat, k: nat) returns (top: nat)
    requires k <= |d.nodes|
    ensures forall p :: 0 <= p < k ==> A(d, p, s).maxProposed <= top
  {
    if k == 0 {
      top := 0;
    } else {
      top := Top(d, s, k - 1);
      top := Larger(top, A(d, k - 1, s).maxProposed);
    }
  }

  lemma Begin(cfg: Config) returns (d: DistState)
    requires WellFormed(cfg)
    ensures Up(cfg, d) && forall x: nat :: x < |cfg| ==> Idle(d, x, 0)
    ensures forall t: nat :: Untouched(d, t)
    ensures forall p: nat, t: nat :: p < |cfg| && (t > cfg[p].length || !cfg[p].mode.Multi?) ==>
      A(d, p, t) == FRESH_ACCEPTOR
  {
    d := DistState(seq(|cfg|, i requires 0 <= i < |cfg| => InitialCaptain(cfg[i])), {});
    assert Run(cfg, [d], []);
    assert [d][|[d]| - 1] == d;
    forall x: nat | x < |cfg|
      ensures Idle(d, x, 0)
    {
      assert ValidView(cfg, x, cfg[x]);
    }
  }
}
