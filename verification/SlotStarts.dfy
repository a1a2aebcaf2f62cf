/** How a node starts slots, and why a node in Multi mode ever sends a prepare request. */
module SlotStarts {
  import opened PaxosTypes
  import opened Acceptors
  import opened Proposers
  import opened CaptainSpec
  import opened CaptainInvariant
  import opened Learning
  import opened Protocol
  import opened SystemInvariant
  import SlotRefinement

  /** The ballot of a proposer that has not started over. */
  function OpeningBallot(view: View): nat { NODE_SPAN + view.whoami }

  // ---------------------------------------------------------------- what a start leaves behind

  /** The value is proposed for the first time: in Multi mode in the second phase, else in the first. */
  ghost predicate Opened(view: View, o: Outcome, slot: nat, v: PropValue) {
    slot in o.state.proposers &&
    var info := o.state.proposers[slot];
    info.tryTime == 1 && info.proposer.initValue == v && info.proposer.currBallot == OpeningBallot(view) &&
    if view.mode.Multi? then
      info.status.PHASEII? && info.proposer.currValue == Some(v) &&
      Accept(view.whoami, slot, OpeningBallot(view), v) in o.sent && (forall x :: x in o.sent ==> !x.Prepare?)
    else
      info.status.INIT? && info.proposer.currValue.None? &&
      Prepare(view.whoami, slot, OpeningBallot(view)) in o.sent && (forall x :: x in o.sent ==> !x.Accept?)
  }

  /** The value is proposed again after losing a slot: always from the first phase. */
  ghost predicate Reopened(view: View, o: Outcome, slot: nat, v: PropValue, tryTime: nat) {
    slot in o.state.proposers &&
    var info := o.state.proposers[slot];
    info.tryTime == tryTime && info.status.INIT? && info.proposer == Prepared(NewProposer(v), view.whoami) &&
    Prepare(view.whoami, slot, OpeningBallot(view)) in o.sent && forall x :: x in o.sent ==> !x.Accept?
  }

  lemma StartNewOpens(view: View, c: CaptainState, v: PropValue)
    ensures var o := StartNew(view, c, v);
      Opened(view, o, c.maxSlot + 1, v) && o.state.maxSlot == c.maxSlot + 1 && o.state.toCommit == c.toCommit &&
      o.state.proposers.Keys == c.proposers.Keys + {c.maxSlot + 1} &&
      forall s :: s in c.proposers && s != c.maxSlot + 1 ==> o.state.proposers[s] == c.proposers[s]
  {}

  // ---------------------------------------------------------------- committing

  /** With room in the window the oldest waiting value, or the new one if none waits, gets the next slot. */
  lemma CommitOpens(view: View, c: CaptainState, v: PropValue)
    requires |c.proposers| < view.window
    ensures var o := CommitValue(view, c, v);
      var waiting := c.toCommit + [v];
      Opened(view, o, c.maxSlot + 1, waiting[0]) && o.state.toCommit == waiting[1..]
  {
    hide StartNew, Opened;
    var d := c.(committed := c.committed + [v]);
    if |c.toCommit| > 0 {
      StartNewOpens(view, d.(toCommit := c.toCommit[1..] + [v]), c.toCommit[0]);
    } else {
      StartNewOpens(view, d, v);
    }
  }

  /** With a full window it waits behind the others, and nothing is sent. */
  lemma CommitQueues(view: View, c: CaptainState, v: PropValue)
    requires |c.proposers| == view.window
    ensures var o := CommitValue(view, c, v);
      o.state.toCommit == c.toCommit + [v] && o.state.proposers == c.proposers && o.sent == []
  {}

  /** A window that is more than full takes nothing. */
  lemma CommitRefused(view: View, c: CaptainState, v: PropValue)
    requires |c.proposers| > view.window
    ensures CommitValue(view, c, v) == Outcome(c, [])
  {}

  /** A working master answers a forwarded value with the same message, and commits it; others ignore it. */
  lemma CommitIsAnswered(view: View, c: CaptainState, from: nat, v: PropValue)
    requires c.work
    ensures var o := HandleMsg(view, c, Commit(from, v));
      if view.whoami == view.master then
        Commit(from, v) in o.sent && (WindowOk(view, c) ==> o.state.committed == c.committed + [v])
      else o == Outcome(c, [])
  {
    hide CommitValue;
    if WindowOk(view, c) {
      CommitValueKeeps(view, c, v);
    }
  }

  // ---------------------------------------------------------------- the first phase

  /** A promise leaves the proposer of its slot waiting for more, past the first phase, or at its start again. */
  lemma PromiseMovesOn(view: View, c: CaptainState, to: nat, slot: nat, m: PromiseAck)
    requires c.work && slot in c.proposers && FirstPhase(c.proposers[slot].status)
    ensures var o := HandleMsg(view, c, Promise(to, slot, m));
      var (p, r) := AfterPromise(view, c.proposers[slot].proposer, m);
      slot in o.state.proposers && o.state.proposers.Keys == c.proposers.Keys &&
      var info := o.state.proposers[slot];
      info.proposer.initValue == c.proposers[slot].proposer.initValue && info.tryTime == c.proposers[slot].tryTime &&
      (info.status.PHASEII? <==> r == CONTINUE) && (info.status.INIT? <==> r == RESTART) &&
      (r == CONTINUE ==> info.proposer.currValue.Some?) &&
      (r == CONTINUE ==>
        o.sent == [Accept(view.whoami, slot, info.proposer.currBallot, info.proposer.currValue.value)]) &&
      (r == RESTART ==> o.sent == [Prepare(view.whoami, slot, info.proposer.currBallot)]) &&
      (r == RESTART ==>
        info.proposer.currBallot == NextBallot(c.proposers[slot].proposer.currBallot, view.whoami)) &&
      (r == RESTART ==> info.proposer.maxValue == p.maxValue && info.proposer.maxBallot == p.maxBallot) &&
      (r == NOT_ENOUGH || r == DROP ==> o.sent == [])
  {
    hide Highest, Granted, Shares;
  }

  // ---------------------------------------------------------------- the end of a slot

  /** The vote settles the slot. */
  ghost predicate Settles(view: View, c: CaptainState, slot: nat, m: AcceptAck) {
    slot in c.proposers && c.proposers[slot].status.PHASEII? &&
    AfterAccepted(view, c.proposers[slot].proposer, m).1 == CHOOSE
  }

  ghost predicate SettlesOwn(view: View, c: CaptainState, slot: nat, m: AcceptAck) {
    Settles(view, c, slot, m) && c.proposers[slot].proposer.currValue.Some? &&
    c.proposers[slot].proposer.currValue.value.id == c.proposers[slot].proposer.initValue.id
  }

  ghost predicate SettlesOther(view: View, c: CaptainState, slot: nat, m: AcceptAck) {
    Settles(view, c, slot, m) && c.proposers[slot].proposer.currValue.Some? &&
    c.proposers[slot].proposer.currValue.value.id != c.proposers[slot].proposer.initValue.id
  }

  /** What is left of a node and what it has said once the settled value is in its log. */
  lemma SettledLog(view: View, c: CaptainState, slot: nat, m: AcceptAck) returns (a: Outcome, b: Outcome)
    requires Settles(view, c, slot, m) && c.proposers[slot].proposer.currValue.Some?
    ensures var info := c.proposers[slot]; var v := info.proposer.currValue.value;
      var o := OnAccepted(view, c, slot, m);
      b == Replace(view, a.state, slot, info, v) && o == Outcome(b.state, a.sent + b.sent) &&
      a.state.proposers.Keys == c.proposers.Keys && (forall s :: s in c.proposers && s != slot ==>
        a.state.proposers[s] == c.proposers[s]) &&
      a.state.maxSlot == c.maxSlot && a.state.toCommit == c.toCommit &&
      forall x :: x in a.sent ==> x.Decide? || x.Teach?
  {
    hide AfterAccepted, AddChosen, Replace;
    var info := c.proposers[slot];
    SlotRefinement.ChooseHasValue(view, info.proposer, m);
    CurrValueStays(view, info.proposer, m);
    var (p, r) := AfterAccepted(view, info.proposer, m);
    var v := p.currValue.value;
    var d := c.(proposers := c.proposers[slot := info.(proposer := p, status := CHOSEN)]);
    AddChosenKeeps(Told(d, info, v), slot, v);
    a := Announce(view, d, slot, info, v);
    b := Replace(view, a.state, slot, info, v);
  }

  /** The own value was chosen: its place goes to the oldest waiting value, started as any new one. */
  lemma OwnChoiceOpens(view: View, c: CaptainState, slot: nat, m: AcceptAck)
    requires SettlesOwn(view, c, slot, m) && slot <= c.maxSlot
    ensures var o := OnAccepted(view, c, slot, m);
      if c.toCommit == [] then o.state.proposers.Keys == c.proposers.Keys - {slot} && o.state.toCommit == []
      else
        Opened(view, o, c.maxSlot + 1, c.toCommit[0]) && o.state.toCommit == c.toCommit[1..] &&
        o.state.proposers.Keys == c.proposers.Keys - {slot} + {c.maxSlot + 1}
  {
    hide AfterAccepted, OnAccepted, Announce, StartNew;
    var a, b := SettledLog(view, c, slot, m);
    var e := a.state.(proposers := a.state.proposers - {slot});
    if c.toCommit != [] {
      StartNewOpens(view, e.(toCommit := e.toCommit[1..]), e.toCommit[0]);
    }
  }

  /** Another value was chosen: the own one starts again in the next slot. */
  lemma LosingReopens(view: View, c: CaptainState, slot: nat, m: AcceptAck)
    requires SettlesOther(view, c, slot, m) && slot <= c.maxSlot
    ensures var o := OnAccepted(view, c, slot, m);
      Reopened(view, o, c.maxSlot + 1, c.proposers[slot].proposer.initValue, c.proposers[slot].tryTime + 1) &&
      o.state.toCommit == c.toCommit && o.state.proposers.Keys == c.proposers.Keys - {slot} + {c.maxSlot + 1}
  {
    hide AfterAccepted, OnAccepted, Announce;
    var a, b := SettledLog(view, c, slot, m);
  }

  // ---------------------------------------------------------------- prepare requests in Multi mode

  /** The proposer of the slot is told by a promise or a vote to start over, at the ballot. */
  ghost predicate RestartsAt(view: View, c: CaptainState, m: Message, slot: nat, ballot: nat) {
    slot in c.proposers && ballot == NextBallot(c.proposers[slot].proposer.currBallot, view.whoami) &&
    var info := c.proposers[slot];
    match m
    case Promise(_, s, ack) =>
      s == slot && FirstPhase(info.status) && AfterPromise(view, info.proposer, ack).1 == RESTART
    case Accepted(_, s, ack) =>
      s == slot && info.status.PHASEII? && AfterAccepted(view, info.proposer, ack).1 == RESTART
    case _ => false
  }

  /** An earlier slot has just chosen another value than the own one, which gets the next slot. */
  ghost predicate LosesTo(view: View, c: CaptainState, m: Message, slot: nat, ballot: nat) {
    m.Accepted? && SettlesOther(view, c, m.slot, m.ack) && slot == c.maxSlot + 1 && ballot == OpeningBallot(view)
  }

  ghost predicate HasReason(view: View, c: CaptainState, m: Message, slot: nat, ballot: nat) {
    c.work && (RestartsAt(view, c, m, slot, ballot) || LosesTo(view, c, m, slot, ballot))
  }

  /** In Multi mode a node sends a prepare request exactly for a restart, or for a value that has lost a slot. */
  lemma PreparesExactly(view: View, c: CaptainState, m: Message, n: nat, slot: nat, ballot: nat)
    requires view.mode.Multi? && SlotsOk(view, c)
    ensures Prepare(n, slot, ballot) in HandleMsg(view, c, m).sent <==>
      n == view.whoami && HasReason(view, c, m, slot, ballot)
  {
    hide AfterPromise, AfterAccepted, OnAccepted, AddChosen, CommitValue;
    if c.work {
      match m
      case Promise(_, s, ack) => PromisePrepares(view, c, s, ack);
      case Accepted(_, s, ack) => VotePrepares(view, c, m, n, slot, ballot);
      case Commit(_, v) => CommitSaysNoPrepare(view, c, v);
      case _ =>
    }
  }

  lemma PromisePrepares(view: View, c: CaptainState, slot: nat, ack: PromiseAck)
    ensures slot in c.proposers && FirstPhase(c.proposers[slot].status) ==>
      AfterPromise(view, c.proposers[slot].proposer, ack).0.currBallot == c.proposers[slot].proposer.currBallot
  {
    hide Highest, Granted, Shares;
  }

  lemma CommitSaysNoPrepare(view: View, c: CaptainState, v: PropValue)
    requires view.mode.Multi?
    ensures forall x :: x in CommitValue(view, c, v).sent ==> !x.Prepare?
  {}

  lemma VoteKeepsBallot(view: View, p: ProposerState, m: AcceptAck)
    ensures AfterAccepted(view, p, m).0.currBallot == p.currBallot
  {}

  lemma VotePrepares(view: View, c: CaptainState, m: Message, n: nat, slot: nat, ballot: nat)
    requires view.mode.Multi? && SlotsOk(view, c) && m.Accepted? && c.work
    ensures Prepare(n, slot, ballot) in OnAccepted(view, c, m.slot, m.ack).sent <==>
      n == view.whoami && HasReason(view, c, m, slot, ballot)
  {
    hide AfterAccepted, Announce, Replace;
    if m.slot in c.proposers && c.proposers[m.slot].status.PHASEII? {
      var info := c.proposers[m.slot];
      var (p, r) := AfterAccepted(view, info.proposer, m.ack);
      VoteKeepsBallot(view, info.proposer, m.ack);
      SlotRefinement.ChooseHasValue(view, info.proposer, m.ack);
      if r == CHOOSE {
        var a, b := SettledLog(view, c, m.slot, m.ack);
        ReplacePrepares(view, a.state, m.slot, info, p.currValue.value);
        assert Prepare(n, slot, ballot) !in a.sent;
        assert Prepare(n, slot, ballot) in b.sent <==> n == view.whoami && LosesTo(view, c, m, slot, ballot);
      } else if r == RESTART {
        var q := Restarted(p, view.whoami);
        assert OnAccepted(view, c, m.slot, m.ack).sent == [Prepare(view.whoami, m.slot, q.currBallot)];
      } else {
        assert OnAccepted(view, c, m.slot, m.ack).sent == [];
      }
    }
  }

  lemma ReplacePrepares(view: View, c: CaptainState, slot: nat, info: InfoState, v: PropValue)
    requires view.mode.Multi?
    ensures var o := Replace(view, c, slot, info, v);
      forall x :: x in o.sent && x.Prepare? <==>
        v.id != info.proposer.initValue.id && x == Prepare(view.whoami, c.maxSlot + 1, OpeningBallot(view))
  {}

  /** Handed a string, a node sends none. */
  lemma LocalCommitSaysNoPrepare(view: View, c: CaptainState, data: string)
    requires view.mode.Multi?
    ensures forall x :: x in LocalCommit(view, c, data).sent ==> !x.Prepare?
  {
    hide CommitValue;
    var id := c.valueId + NODE_SPAN;
    CommitSaysNoPrepare(view, c.(valueId := id, issued := c.issued + [PropValue(id, data)]), PropValue(id, data));
  }

  // ---------------------------------------------------------------- over runs

  /** The event made the node send the prepare request. */
  ghost predicate Explains(cfg: Config, d: DistState, e: Event, n: nat, slot: nat, ballot: nat) {
    e.Delivers? && e.node == n && n < |cfg| && n < |d.nodes| && HasReason(cfg[n], d.nodes[n], e.msg, slot, ballot)
  }

  /**
   In every run of Multi mode, each prepare request was sent at an event that told the proposer of
   its slot to start over, or that had another value chosen in an earlier slot of its sender.
   */
  lemma {:induction false} PreparesExplained(cfg: Config, states: seq<DistState>, events: seq<Event>, k: nat,
      n: nat, slot: nat, ballot: nat) returns (a: nat)
    requires ValidConfig(cfg) && cfg[0].mode.Multi? && Run(cfg, states, events) && k < |states|
    requires Prepare(n, slot, ballot) in states[k].net
    ensures a < k && Explains(cfg, states[a], events[a], n, slot, ballot)
  {
    hide HasReason, SlotsInv, ValuesOk, LogsLearned, NewsLearned, HandleMsg, LocalCommit;
    assert k > 0;
    var d, e := states[k - 1], events[k - 1];
    assert Next(cfg, d, states[k], e);
    if Prepare(n, slot, ballot) in d.net {
      a := PreparesExplained(cfg, states, events, k - 1, n, slot, ballot);
    } else {
      RunInv(cfg, states, events, k - 1);
      var view, c := cfg[e.node], d.nodes[e.node];
      assert NodeInv(view, c) && ValidView(cfg, e.node, view);
      match e
      case Commits(_, data) => LocalCommitSaysNoPrepare(view, c, data); assert false;
      case Delivers(_, m) =>
        PreparesExactly(view, c, m, n, slot, ballot);
        a := k - 1;
      case Crashes(_) => assert false;
    }
  }

  /** The value a slot was lost to is the chosen one of that slot. */
  lemma LostToChosen(cfg: Config, d: DistState, e: Event, slot: nat, ballot: nat)
    requires ValidConfig(cfg) && Reachable(cfg, d) && Enabled(d, e) && e.Delivers? && e.node < |cfg| == |d.nodes|
    requires LosesTo(cfg[e.node], d.nodes[e.node], e.msg, slot, ballot)
    ensures var info := d.nodes[e.node].proposers[e.msg.slot];
      ChosenIn(cfg, d.net, e.msg.slot, info.proposer.currValue.value) &&
      info.proposer.currValue.value.id != info.proposer.initValue.id && 1 <= e.msg.slot < slot
  {
    hide AfterAccepted, Reachable, ChosenIn, LogOk, OrderOk, ConservationOk;
    ReachableInv(cfg, d);
    assert NodeInv(cfg[e.node], d.nodes[e.node]);
    assert SlotNumbered(e.msg);
    JustifiedIsChosen(cfg, d, e, e.msg.slot, d.nodes[e.node].proposers[e.msg.slot].proposer.currValue.value);
  }

  // ---------------------------------------------------------------- what is ignored

  /** Promises past the first phase, votes outside the second, and answers about other slots change nothing. */
  lemma LateAnswersIgnored(view: View, c: CaptainState, m: Message)
    requires m.Promise? || m.Accepted?
    requires m.slot in c.proposers ==>
      var status := c.proposers[m.slot].status;
      if m.Promise? then status.PHASEII? || status.CHOSEN? else !status.PHASEII?
    ensures HandleMsg(view, c, m) == Outcome(c, [])
  {}

  lemma CrashedIgnores(view: View, c: CaptainState, m: Message)
    requires !c.work
    ensures HandleMsg(view, c, m) == Outcome(c, [])
  {}

  /** A crashed node that is handed no strings stays as it was and says nothing, whatever it is sent. */
  lemma {:induction false} CrashedForGood(cfg: Config, states: seq<DistState>, events: seq<Event>, k: nat, l: nat,
      i: nat)
    requires Run(cfg, states, events) && k <= l < |states| && i < |cfg| == |states[k].nodes|
    requires !states[k].nodes[i].work && forall a :: k <= a < l ==> !(events[a].Commits? && events[a].node == i)
    ensures |states[l].nodes| == |cfg| && states[l].nodes[i] == states[k].nodes[i]
    ensures forall a :: k <= a < l && events[a].node == i ==> states[a + 1].net == states[a].net
    decreases l - k
  {
    hide LocalCommit, HandleMsg;
    if k < l {
      CrashedForGood(cfg, states, events, k, l - 1, i);
      var d, e := states[l - 1], events[l - 1];
      assert Next(cfg, d, states[l], e);
      if e.node == i && e.Delivers? {
        CrashedIgnores(cfg[i], d.nodes[i], e.msg);
      }
    }
  }
}
