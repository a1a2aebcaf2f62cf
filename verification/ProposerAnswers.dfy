/** What a proposer answers to promises, said in terms of the replies alone. */
module ProposerAnswers {
  import opened Counting
  import opened PaxosTypes
  import opened Acceptors
  import opened Proposers

  /** The nodes that sent no granted reply with the id. */
  ghost function Missing(acks: map<nat, PromiseAck>, id: nat, n: nat): set<nat> {
    set i: nat | i < n && !(i in acks && acks[i].reply && ReportedId(acks[i]) == id)
  }

  lemma SharesAndMissing(acks: map<nat, PromiseAck>, id: nat, n: nat)
    requires forall i :: i in acks ==> i < n
    ensures |Shares(acks, id)| + |Missing(acks, id, n)| == n
  {
    DifferenceSize(Shares(acks, id), Interval(0, n));
    assert Interval(0, n) - Shares(acks, id) == Missing(acks, id, n);
  }

  /** The report that counts once the promise is filed. */
  ghost function ReportWith(view: View, p: ProposerState, m: PromiseAck): Report {
    Highest(p.ackPrepare[m.node := m], view.nodes, Report(p.maxBallot, p.maxValue))
  }

  /** A quorum of granted replies; in RS mode, all but `f` nodes with the id of the report, if it has a value. */
  ghost predicate MayContinue(view: View, acks: map<nat, PromiseAck>, best: Report) {
    |Granted(acks)| >= view.qr &&
    (view.mode.RS? && best.value.Some? ==> |Missing(acks, best.value.value.id, view.nodes)| <= view.rsF)
  }

  /**
   Every answer exactly: late promises and those of a proposer with a value are dropped, fewer
   replies than a quorum are not enough, and a quorum is a go or a restart. A go takes over the
   reported value, or the own one if none is reported.
   */
  lemma PromiseAnswer(view: View, p: ProposerState, m: PromiseAck)
    requires m.node < view.nodes && FiledByNode(p, view.nodes)
    ensures var (q, r) := AfterPromise(view, p, m);
      var acks, best := p.ackPrepare[m.node := m], ReportWith(view, p, m);
      (r == DROP <==> m.ballot < p.currBallot || p.currValue.Some?) &&
      (r == NOT_ENOUGH <==> r != DROP && |acks| < view.qr) &&
      (r == CONTINUE <==> r != DROP && |acks| >= view.qr && MayContinue(view, acks, best)) &&
      (r == RESTART <==> r != DROP && |acks| >= view.qr && !MayContinue(view, acks, best)) &&
      (r == CONTINUE ==> q.currValue == if best.value.Some? then best.value else Some(p.initValue)) &&
      (r != CONTINUE ==> q.currValue == p.currValue)
  {
    hide Highest, Granted, Shares;
    var acks, best := p.ackPrepare[m.node := m], ReportWith(view, p, m);
    if best.value.Some? {
      SharesAndMissing(acks, best.value.value.id, view.nodes);
    }
  }

  /** Every reply is granted and carries the id. */
  ghost predicate AllCarry(acks: map<nat, PromiseAck>, id: nat) {
    forall i :: i in acks ==> acks[i].reply && ReportedId(acks[i]) == id
  }

  ghost predicate AllGrant(acks: map<nat, PromiseAck>) {
    forall i :: i in acks ==> acks[i].reply
  }

  /**
   RS mode where a quorum is all but `f` nodes: when the last reply of a quorum comes in, the
   proposer goes on if and only if all replies are granted and, should the report have a value, all
   carry its id. Any mixture of replies with and without the value, or with another, starts over.
   */
  lemma QuorumContinues(view: View, p: ProposerState, m: PromiseAck)
    requires m.node < view.nodes && FiledByNode(p, view.nodes)
    requires view.mode.RS? && view.qr <= view.nodes && view.rsF == view.nodes - view.qr
    requires m.ballot >= p.currBallot && p.currValue.None? && |p.ackPrepare[m.node := m]| == view.qr
    ensures var (q, r) := AfterPromise(view, p, m);
      var acks, best := p.ackPrepare[m.node := m], ReportWith(view, p, m);
      (r == CONTINUE || r == RESTART) &&
      (r == CONTINUE <==> AllGrant(acks) && (best.value.Some? ==> AllCarry(acks, best.value.value.id)))
  {
    hide Highest, AfterPromise;
    var acks, best := p.ackPrepare[m.node := m], ReportWith(view, p, m);
    PromiseAnswer(view, p, m);
    QuorumOfAll(acks, Granted(acks));
    assert AllGrant(acks) <==> Granted(acks) == acks.Keys;
    if best.value.Some? {
      var id := best.value.value.id;
      SharesAndMissing(acks, id, view.nodes);
      QuorumOfAll(acks, Shares(acks, id));
      assert AllCarry(acks, id) <==> Shares(acks, id) == acks.Keys;
    }
  }

  lemma QuorumOfAll(acks: map<nat, PromiseAck>, some: set<nat>)
    requires some <= acks.Keys
    ensures |some| >= |acks| <==> some == acks.Keys
  {
    assert |acks| == |acks.Keys|;
    SubsetSize(some, acks.Keys);
    if |some| == |acks.Keys| {
      SubsetOfEqualSize(some, acks.Keys);
    }
  }

  function ReportOf(ack: PromiseAck): Report { Report(ack.maxBallot, ack.maxValue) }

  /** A granted reply of a node below `k`. */
  ghost predicate Grants(acks: map<nat, PromiseAck>, k: nat, i: nat) {
    i < k && i in acks && acks[i].reply
  }

  /** The first granted reply, in the order of the nodes, with a ballot as high as any and above the kept one. */
  ghost predicate FirstHighest(acks: map<nat, PromiseAck>, k: nat, i: nat) {
    Grants(acks, k, i) &&
    (forall j: nat :: Grants(acks, k, j) ==> acks[j].maxBallot <= acks[i].maxBallot) &&
    forall j: nat :: Grants(acks, k, j) && j < i ==> acks[j].maxBallot < acks[i].maxBallot
  }

  ghost predicate NoneAbove(acks: map<nat, PromiseAck>, k: nat, ballot: nat) {
    forall i: nat :: Grants(acks, k, i) ==> acks[i].maxBallot <= ballot
  }

  /** The kept report unless a granted reply has a higher ballot; then that of the first reply with the highest. */
  ghost predicate TopReport(acks: map<nat, PromiseAck>, k: nat, start: Report, r: Report) {
    if NoneAbove(acks, k, start.ballot) then r == start
    else r.ballot > start.ballot && exists i :: FirstHighest(acks, k, i) && r == ReportOf(acks[i])
  }

  lemma TopIsHighest(acks: map<nat, PromiseAck>, k: nat, start: Report, r: Report)
    requires TopReport(acks, k, start, r)
    ensures NoneAbove(acks, k, r.ballot)
  {
    if !NoneAbove(acks, k, start.ballot) {
      var i :| FirstHighest(acks, k, i) && r == ReportOf(acks[i]);
    }
  }

  lemma TopUnchanged(acks: map<nat, PromiseAck>, k: nat, start: Report, r: Report)
    requires TopReport(acks, k, start, r) && (Grants(acks, k + 1, k) ==> acks[k].maxBallot <= r.ballot)
    ensures TopReport(acks, k + 1, start, r)
  {
    assert forall i: nat :: Grants(acks, k + 1, i) && i != k ==> Grants(acks, k, i);
    if NoneAbove(acks, k, start.ballot) {
      assert NoneAbove(acks, k + 1, start.ballot);
    } else {
      var j: nat :| Grants(acks, k, j) && acks[j].maxBallot > start.ballot;
      assert Grants(acks, k + 1, j);
      var i :| FirstHighest(acks, k, i) && r == ReportOf(acks[i]);
      assert FirstHighest(acks, k + 1, i);
    }
  }

  /** The scan ends with the top report, so ties go to the kept report and then to the lowest node. */
  lemma {:induction false} HighestIsTop(acks: map<nat, PromiseAck>, k: nat, start: Report)
    ensures TopReport(acks, k, start, Highest(acks, k, start))
  {
    if k > 0 {
      hide TopReport, FirstHighest;
      HighestIsTop(acks, k - 1, start);
      var before, last := Highest(acks, k - 1, start), k - 1;
      TopIsHighest(acks, last, start, before);
      if Grants(acks, k, last) && acks[last].maxBallot > before.ballot {
        LastIsTop(acks, last, start, before);
      } else {
        TopUnchanged(acks, last, start, before);
      }
    }
  }

  lemma LastIsTop(acks: map<nat, PromiseAck>, k: nat, start: Report, before: Report)
    requires TopReport(acks, k, start, before) && NoneAbove(acks, k, before.ballot)
    requires Grants(acks, k + 1, k) && acks[k].maxBallot > before.ballot
    ensures TopReport(acks, k + 1, start, ReportOf(acks[k]))
  {
    assert forall i: nat :: Grants(acks, k + 1, i) && i != k ==> Grants(acks, k, i);
    assert FirstHighest(acks, k + 1, k);
    assert before.ballot >= start.ballot;
  }

  // ---------------------------------------------------------------- RS mode without a way on

  /** The acceptors that hold a value with the id. */
  ghost function HoldersOf(acceptors: seq<AcceptorState>, id: nat): set<nat> {
    set i: nat | i < |acceptors| && acceptors[i].maxValue.Some? && acceptors[i].maxValue.value.id == id
  }

  ghost function EmptyOnes(acceptors: seq<AcceptorState>): set<nat> {
    set i: nat | i < |acceptors| && acceptors[i].maxValue.None?
  }

  /** A granted reply reports what the acceptor holds; a value is held from the first vote on, and ids are not 0. */
  ghost predicate ReportsIt(ack: PromiseAck, a: AcceptorState) {
    ack.maxValue == a.maxValue && ack.maxBallot == a.maxAccepted && (a.maxValue.Some? <==> a.maxAccepted > 0) &&
    (a.maxValue.Some? ==> a.maxValue.value.id > 0)
  }

  ghost predicate ReportsOf(acks: map<nat, PromiseAck>, acceptors: seq<AcceptorState>) {
    forall i :: i in acks ==> i < |acceptors| && (acks[i].reply ==> ReportsIt(acks[i], acceptors[i]))
  }

  /**
   RS mode where a quorum is all but `f` nodes: a proposer that has heard of no value starts over at
   every quorum, as long as neither one id nor emptiness is found at a whole quorum of acceptors.
   */
  lemma NoQuorumContinues(view: View, p: ProposerState, m: PromiseAck, acceptors: seq<AcceptorState>)
    requires m.node < view.nodes == |acceptors| && FiledByNode(p, view.nodes)
    requires view.mode.RS? && view.qr <= view.nodes && view.rsF == view.nodes - view.qr
    requires m.ballot >= p.currBallot && p.currValue.None? && |p.ackPrepare[m.node := m]| == view.qr
    requires p.maxValue.None? && p.maxBallot == 0 && ReportsOf(p.ackPrepare[m.node := m], acceptors)
    requires |EmptyOnes(acceptors)| < view.qr && forall id :: |HoldersOf(acceptors, id)| < view.qr
    ensures AfterPromise(view, p, m).1 == RESTART
  {
    hide Highest, AfterPromise, AllCarry;
    var acks, best := p.ackPrepare[m.node := m], ReportWith(view, p, m);
    QuorumContinues(view, p, m);
    assert |acks| == |acks.Keys|;
    if AllGrant(acks) && best.value.Some? && AllCarry(acks, best.value.value.id) {
      HoldersCarry(view, p, m, acceptors);
    } else if AllGrant(acks) && best.value.None? {
      EmptyReported(view, p, m, acceptors);
    }
  }

  lemma HoldersCarry(view: View, p: ProposerState, m: PromiseAck, acceptors: seq<AcceptorState>)
    requires var acks, best := p.ackPrepare[m.node := m], ReportWith(view, p, m);
      ReportsOf(acks, acceptors) && best.value.Some? && AllCarry(acks, best.value.value.id) && p.maxValue.None?
    ensures var acks, best := p.ackPrepare[m.node := m], ReportWith(view, p, m);
      |acks.Keys| <= |HoldersOf(acceptors, best.value.value.id)|
  {
    hide Highest;
    var acks, best := p.ackPrepare[m.node := m], ReportWith(view, p, m);
    HighestIsTop(acks, view.nodes, Report(p.maxBallot, p.maxValue));
    SubsetSize(acks.Keys, HoldersOf(acceptors, best.value.value.id));
  }

  lemma EmptyTop(acks: map<nat, PromiseAck>, k: nat, start: Report, r: Report, acceptors: seq<AcceptorState>)
    requires TopReport(acks, k, start, r) && ReportsOf(acks, acceptors) && r.value.None?
    ensures NoneAbove(acks, k, start.ballot)
  {}

  lemma EmptyReported(view: View, p: ProposerState, m: PromiseAck, acceptors: seq<AcceptorState>)
    requires var acks, best := p.ackPrepare[m.node := m], ReportWith(view, p, m);
      ReportsOf(acks, acceptors) && best.value.None? && AllGrant(acks) && p.maxValue.None? && p.maxBallot == 0
    requires view.nodes == |acceptors|
    ensures |p.ackPrepare[m.node := m].Keys| <= |EmptyOnes(acceptors)|
  {
    hide Highest, TopReport;
    var acks := p.ackPrepare[m.node := m];
    HighestIsTop(acks, view.nodes, Report(p.maxBallot, p.maxValue));
    EmptyTop(acks, view.nodes, Report(p.maxBallot, p.maxValue), ReportWith(view, p, m), acceptors);
    forall i | i in acks
      ensures i in EmptyOnes(acceptors)
    {
      assert Grants(acks, view.nodes, i);
    }
    SubsetSize(acks.Keys, EmptyOnes(acceptors));
  }
}
