/** State-machine replication: what holds between any two nodes in every run. */
module Replication {
  import opened Counting
  import opened PaxosTypes
  import opened Acceptors
  import opened Proposers
  import opened CaptainSpec
  import opened CaptainInvariant
  import opened Learning
  import opened Protocol
  import opened SlotRefinement
  import opened SystemInvariant
  import Synod
  import SynodInvariant
  import SynodAgreement
  import opened ValueOrigin

  /** A chosen value is one some node created, and in one slot there is only one. */
  lemma ChosenOnce(cfg: Config, d: DistState, slot: nat, v: PropValue, w: PropValue)
    requires ValidConfig(cfg) && SystemInv(cfg, d) && slot >= 1
    requires ChosenIn(cfg, d.net, slot, v) && ChosenIn(cfg, d.net, slot, w)
    ensures v == w
  {
    hide SlotInv, ChosenIn, IssuedValues, NodeInv;
    assert SlotInv(cfg, d, slot);
    ChosenAgree(cfg, d, slot, v, w);
    ChosenIsIssued(cfg, d, slot, v);
    ChosenIsIssued(cfg, d, slot, w);
    IdsDetermineValues(cfg, d, v, w);
  }

  /** Logs never disagree. */
  lemma LogsAgree(cfg: Config, d: DistState, i: nat, j: nat, slot: nat)
    requires ValidConfig(cfg) && Reachable(cfg, d) && i < |cfg| && j < |cfg|
    ensures |d.nodes| == |cfg|
    ensures LogAt(d.nodes[i], slot).Some? && LogAt(d.nodes[j], slot).Some? ==>
      LogAt(d.nodes[i], slot) == LogAt(d.nodes[j], slot)
  {
    hide ChosenIn, SlotInv, LogAt, NodeInv, Reachable;
    ReachableInv(cfg, d);
    if LogAt(d.nodes[i], slot).Some? && LogAt(d.nodes[j], slot).Some? {
      SlotZeroEmpty(cfg, d, i);
      ChosenOnce(cfg, d, slot, LogAt(d.nodes[i], slot).value, LogAt(d.nodes[j], slot).value);
    }
  }

  lemma CallbackIsLogged(view: View, c: CaptainState, k: nat)
    requires NodeInv(view, c) && k < |c.callbacks|
    ensures LogAt(c, k + 1) == Some(c.callbacks[k])
  {}

  /**
   State-machine replication: the values handed to the callbacks of any two nodes are prefixes of
   one another, whichever of an own choice, a decided id or a taught value supplied each of them.
   */
  lemma CallbacksArePrefixes(cfg: Config, d: DistState, i: nat, j: nat)
    requires ValidConfig(cfg) && Reachable(cfg, d) && i < |cfg| && j < |cfg|
    ensures |d.nodes| == |cfg|
    ensures d.nodes[i].callbacks <= d.nodes[j].callbacks || d.nodes[j].callbacks <= d.nodes[i].callbacks
  {
    hide NodeInv, LogAt, Reachable;
    ReachableInv(cfg, d);
    var a, b := d.nodes[i].callbacks, d.nodes[j].callbacks;
    forall k | 0 <= k < |a| && k < |b|
      ensures a[k] == b[k]
    {
      CallbackIsLogged(cfg[i], d.nodes[i], k);
      CallbackIsLogged(cfg[j], d.nodes[j], k);
      LogsAgree(cfg, d, i, j, k + 1);
    }
    if |a| <= |b| {
      assert a == b[..|a|];
    } else {
      assert b == a[..|b|];
    }
  }

  /** The books of every node: log, frontier, window, queue, order and conservation of values. */
  lemma BooksHold(cfg: Config, d: DistState, i: nat)
    requires ValidConfig(cfg) && Reachable(cfg, d) && i < |cfg|
    ensures |d.nodes| == |cfg|
    ensures LogOk(d.nodes[i]) && WindowOk(cfg[i], d.nodes[i]) && OrderOk(d.nodes[i]) && ConservationOk(d.nodes[i])
  {
    hide Reachable;
    ReachableInv(cfg, d);
    assert NodeInv(cfg[i], d.nodes[i]);
  }

  // ---------------------------------------------------------------- over a run

  lemma {:induction false} RunGrows(cfg: Config, states: seq<DistState>, events: seq<Event>, k: nat, l: nat, i: nat)
    requires ValidConfig(cfg) && Run(cfg, states, events) && k <= l < |states| && i < |cfg|
    ensures states[k].net <= states[l].net && |states[k].nodes| == |states[l].nodes| == |cfg|
    ensures NodeGrows(states[k].nodes[i], states[l].nodes[i])
    decreases l - k
  {
    hide NodeInv, SlotsInv, ValuesOk, LogsLearned, NewsLearned, React, LogOk;
    RunInv(cfg, states, events, k);
    RunInv(cfg, states, events, l);
    if k < l {
      RunGrows(cfg, states, events, k, l - 1, i);
      RunInv(cfg, states, events, l - 1);
      assert Next(cfg, states[l - 1], states[l], events[l - 1]);
      ReactInv(cfg, states[l - 1], events[l - 1]);
    }
  }

  /** Node `i` finishes the slot with the value when it handles the event. */
  ghost predicate Chooses(cfg: Config, d: DistState, e: Event, slot: nat, v: PropValue)
    requires |d.nodes| == |cfg|
  {
    Enabled(d, e) && e.Delivers? && e.msg.Accepted? && Justified(cfg[e.node], d.nodes[e.node], e.msg, slot, v)
  }

  /** Agreement: any two proposers that finish the slot, at any two moments of a run, choose the same value. */
  lemma ChoicesAgree(cfg: Config, states: seq<DistState>, events: seq<Event>, k: nat, l: nat, slot: nat, v: PropValue,
      w: PropValue)
    requires ValidConfig(cfg) && Run(cfg, states, events) && k < |events| && l < |events|
    requires |states[k].nodes| == |cfg| == |states[l].nodes|
    requires Chooses(cfg, states[k], events[k], slot, v) && Chooses(cfg, states[l], events[l], slot, w)
    ensures v == w
  {
    hide Justified, ChosenIn, SystemInv, LogGrows;
    var last := if k <= l then l else k;
    ChoiceHolds(cfg, states, events, k, last, slot, v);
    ChoiceHolds(cfg, states, events, l, last, slot, w);
    RunInv(cfg, states, events, last);
    ChosenOnce(cfg, states[last], slot, v, w);
  }

  lemma ChoiceHolds(cfg: Config, states: seq<DistState>, events: seq<Event>, k: nat, l: nat, slot: nat, v: PropValue)
    requires ValidConfig(cfg) && Run(cfg, states, events) && k < |events| && k <= l < |states|
    requires |states[k].nodes| == |cfg| && Chooses(cfg, states[k], events[k], slot, v)
    ensures ChosenIn(cfg, states[l].net, slot, v) && slot >= 1
  {
    hide ChosenIn, NodeInv, SlotsInv, ValuesOk, LogsLearned, NewsLearned, LogGrows, AfterAccepted;
    RunInv(cfg, states, events, k);
    assert SlotNumbered(events[k].msg);
    JustifiedIsChosen(cfg, states[k], events[k], slot, v);
    RunGrows(cfg, states, events, k, l, 0);
    ChosenStays(cfg, states[k].net, states[l].net, slot, v);
  }

  /** The same across time: an earlier callback sequence of one node and a later one of another. */
  lemma CallbacksArePrefixesOverTime(cfg: Config, states: seq<DistState>, events: seq<Event>, k: nat, l: nat, i: nat,
      j: nat)
    requires ValidConfig(cfg) && Run(cfg, states, events) && k < |states| && l < |states| && i < |cfg| && j < |cfg|
    ensures |states[k].nodes| == |cfg| == |states[l].nodes|
    ensures var a, b := states[k].nodes[i].callbacks, states[l].nodes[j].callbacks; a <= b || b <= a
  {
    hide NodeInv, SlotsInv, Next;
    var last := |states| - 1;
    RunGrows(cfg, states, events, k, last, i);
    RunGrows(cfg, states, events, l, last, j);
    assert Reachable(cfg, states[last]);
    CallbacksArePrefixes(cfg, states[last], i, j);
    var a, b := states[k].nodes[i].callbacks, states[l].nodes[j].callbacks;
    var a', b' := states[last].nodes[i].callbacks, states[last].nodes[j].callbacks;
    assert a == a'[..|a|] && b == b'[..|b|];
    if |a| <= |b| {
      assert a == b[..|a|];
    } else {
      assert b == a[..|b|];
    }
  }

  // ---------------------------------------------------------------- slots and messages

  /** Seen from one slot, every state of the system is a state that slot reaches on its own. */
  lemma {:induction false} SlotsAreRuns(cfg: Config, states: seq<DistState>, events: seq<Event>, k: nat, slot: nat)
    requires ValidConfig(cfg) && Run(cfg, states, events) && k < |states| && slot >= 1
    ensures Synod.Reaches(ParamsOf(cfg, slot), SlotOf(states[k], slot))
  {
    hide SlotOf, NodeInv, SlotsInv, ValuesOk, LogsLearned, NewsLearned, Apply, React;
    var c, s := ParamsOf(cfg, slot), SlotOf(states[k], slot);
    if k == 0 {
      StartSlot(cfg, states[0], slot);
      assert Synod.SlotRun(c, [s], []);
      assert [s][|[s]| - 1] == s;
    } else {
      SlotsAreRuns(cfg, states, events, k - 1, slot);
      RunInv(cfg, states, events, k - 1);
      var d, e := states[k - 1], events[k - 1];
      assert Next(cfg, d, states[k], e);
      NodesStep(cfg, d, e);
      NodesAreOk(cfg, d);
      NodesAreOk(cfg, Apply(d, e.node, React(cfg, d, e)));
      ApplyNode(d, e.node, React(cfg, d, e));
      EventSteps(cfg, d, e, slot);
      var step :| Synod.Next(c, SlotOf(d, slot), s, step);
      Synod.ReachesNext(c, SlotOf(d, slot), s, step);
    }
  }

  /** Every message a node can be given is one it may expect. */
  lemma MessagesAreSensible(cfg: Config, d: DistState, m: Message, i: nat)
    requires ValidConfig(cfg) && Reachable(cfg, d) && m in d.net && i < |cfg|
    ensures Sensible(cfg[i], m)
  {
    hide Reachable, NodeInv, ValuesOk, LogsLearned, NewsLearned;
    ReachableInv(cfg, d);
    assert SlotNumbered(m) && ValidView(cfg, i, cfg[i]);
    if m.Promise? || m.Accepted? {
      assert SlotInv(cfg, d, m.slot);
      AnswersNameNodes(ParamsOf(cfg, m.slot), SlotOf(d, m.slot), m);
    }
  }

  lemma AnswersNameNodes(c: Synod.Params, s: Synod.SlotState, m: Message)
    requires SynodInvariant.Inv(c, s) && m in s.net && (m.Promise? || m.Accepted?) && m.slot == c.slot
    ensures m.Promise? ==> m.promise.node < c.nodes
    ensures m.Accepted? ==> m.ack.node < c.nodes
  {
    hide SynodInvariant.AllSafe, SynodInvariant.ProposersOk, SynodInvariant.AcceptorsOk, SynodInvariant.RequestsOk;
    if m.Accepted? {
      assert SynodInvariant.VoteOk(c, s, m.to, m.ack);
    } else {
      assert Promise(m.to, c.slot, m.promise) in s.net;
    }
  }

  // ---------------------------------------------------------------- RS mode

  /**
   With quorums that overlap in `x` nodes: when a promise completes the quorum of a ballot above
   a chosen one, at least `x` of the replies carry a share of the chosen value.
   */
  lemma EnoughSharesAt(cfg: Config, d: DistState, i: nat, slot: nat, m: PromiseAck, b: nat, v: PropValue, x: nat)
    requires ValidConfig(cfg) && Reachable(cfg, d) && i < |cfg| && slot >= 1
    requires cfg[0].qr + cfg[0].qw == |cfg| + x
    requires Synod.ChosenAt(ParamsOf(cfg, slot), d.net, b, v) && Promise(i, slot, m) in d.net
    ensures |d.nodes| == |cfg|
    ensures slot in d.nodes[i].proposers ==>
      var p := d.nodes[i].proposers[slot].proposer;
      var acks := p.ackPrepare[m.node := m];
      (b < p.currBallot <= m.ballot && |Granted(acks)| >= cfg[0].qr ==> |Shares(acks, v.id)| >= x)
  {
    hide Reachable, Granted, Shares, NodeInv, SynodInvariant.Inv, Synod.ChosenAt;
    ReachableInv(cfg, d);
    if slot in d.nodes[i].proposers {
      var p := d.nodes[i].proposers[slot].proposer;
      var c, s := ParamsOf(cfg, slot), SlotOf(d, slot);
      assert SlotInv(cfg, d, slot);
      if b < p.currBallot <= m.ballot && |Granted(p.ackPrepare[m.node := m])| >= cfg[0].qr {
        ParamsAreValid(cfg, slot);
        ChosenAtSlot(cfg, d, slot, b, v);
        assert s.proposers[i] == p;
        SynodInvariant.PromiseFiled(c, s, i, m);
        SynodAgreement.EnoughShares(c, s, i, p.(ackPrepare := p.ackPrepare[m.node := m]), b, v);
      }
    }
  }

  lemma ChosenAtSlot(cfg: Config, d: DistState, slot: nat, b: nat, v: PropValue)
    requires |cfg| > 0 && Synod.ChosenAt(ParamsOf(cfg, slot), d.net, b, v)
    ensures Synod.ChosenAt(ParamsOf(cfg, slot), SlotOf(d, slot).net, b, v)
  {
    var c, s := ParamsOf(cfg, slot), SlotOf(d, slot);
    VotersGrow(c, d.net, s.net, b);
    SubsetSize(Synod.Voters(c, d.net, b), Synod.Voters(c, s.net, b));
  }
}
