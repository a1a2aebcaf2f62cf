/** How a node learns what it has missed: DECIDE, LEARN and TEACH. */
module CatchUp {
  import opened PaxosTypes
  import opened Acceptors
  import opened Proposers
  import opened CaptainSpec
  import opened CaptainInvariant
  import opened Learning
  import opened Progress
  import opened Protocol
  import opened SlotStarts
  import opened SystemInvariant
  import Replication
  import SlotRefinement

  // ---------------------------------------------------------------- one message

  /** A taught value fills an empty slot, and no other; the callbacks follow the frontier. */
  lemma TeachFills(view: View, c: CaptainState, from: nat, slot: nat, v: PropValue)
    requires c.work && LogOk(c) && slot >= 1
    ensures var o := HandleMsg(view, c, Teach(from, slot, v));
      LogOk(o.state) && LogGrows(c, o.state) && o.sent == [] &&
      forall j: nat :: LogAt(o.state, j) == if j == slot && LogAt(c, j).None? then Some(v) else LogAt(c, j)
  {
    hide AddChosen;
    AddChosenLog(c, slot, v);
  }

  /** A decided id fills an empty slot with the value stored under it; without that value the node asks for it. */
  lemma DecideFillsOrAsks(view: View, c: CaptainState, from: nat, slot: nat, id: nat)
    requires c.work && LogOk(c) && slot >= 1
    ensures var o := HandleMsg(view, c, Decide(from, slot, id));
      var stored := AcceptorAt(c, slot).maxValue;
      LogGrows(c, o.state) &&
      if LogAt(c, slot).Some? then o == Outcome(c, [])
      else if stored.Some? && stored.value.id == id then LogAt(o.state, slot) == stored && o.sent == []
      else o == Outcome(c, [Learn(view.whoami, slot)])
  {
    hide AddChosen;
    if AcceptorAt(c, slot).maxValue.Some? {
      AddChosenLog(c, slot, AcceptorAt(c, slot).maxValue.value);
    }
  }

  /** A known slot is taught to whoever asks. */
  lemma LearnTeaches(view: View, c: CaptainState, from: nat, slot: nat)
    requires c.work
    ensures HandleMsg(view, c, Learn(from, slot)) ==
      Outcome(c, if LogAt(c, slot).Some? then [Teach(view.whoami, slot, LogAt(c, slot).value)] else [])
  {}

  // ---------------------------------------------------------------- every chosen slot was announced

  ghost predicate Decided(net: set<Message>, slot: nat) {
    exists n, id :: Decide(n, slot, id) in net
  }

  ghost predicate AllAnnounced(d: DistState) {
    (forall i, slot: nat :: 0 <= i < |d.nodes| && LogAt(d.nodes[i], slot).Some? ==> Decided(d.net, slot)) &&
    (forall m :: m in d.net && m.Teach? ==> Decided(d.net, m.slot))
  }

  /** Whoever finishes a slot sends the decided id. */
  lemma ChoiceIsAnnounced(view: View, c: CaptainState, slot: nat, ack: AcceptAck, v: PropValue)
    requires slot in c.proposers && c.proposers[slot].proposer.currValue == Some(v)
    requires c.proposers[slot].status.PHASEII? && AfterAccepted(view, c.proposers[slot].proposer, ack).1 == CHOOSE
    ensures Decide(view.whoami, slot, v.id) in OnAccepted(view, c, slot, ack).sent
  {
    hide AfterAccepted, AddChosen, Replace;
    CurrValueStays(view, c.proposers[slot].proposer, ack);
  }

  /** In the later modes, and only there, it sends the value as well. */
  lemma ChoiceIsTaught(view: View, c: CaptainState, slot: nat, ack: AcceptAck)
    requires SlotStarts.Settles(view, c, slot, ack) && c.proposers[slot].proposer.currValue.Some?
    ensures var o := OnAccepted(view, c, slot, ack);
      LogAt(o.state, slot).Some? &&
      ((exists n, s, v :: Teach(n, s, v) in o.sent) <==> view.mode.Multi? || view.mode.Quorum?) &&
      forall n, s, v :: Teach(n, s, v) in o.sent ==> n == view.whoami && s == slot && Some(v) == LogAt(o.state, slot)
  {
    hide AfterAccepted, AddChosen, Replace, LogAt;
    CurrValueStays(view, c.proposers[slot].proposer, ack);
    var info := c.proposers[slot];
    var p := AfterAccepted(view, info.proposer, ack).0;
    var v := p.currValue.value;
    var d := c.(proposers := c.proposers[slot := info.(proposer := p, status := CHOSEN)]);
    var a := Announce(view, d, slot, info, v);
    ReplaceSays(view, a.state, slot, info, v);
    var b := Replace(view, a.state, slot, info, v);
    SameEntries(b.state, a.state);
    AddedAt(Told(d, info, v), slot, v);
    assert a.state == AddChosen(Told(d, info, v), slot, v);
    assert OnAccepted(view, c, slot, ack) == Outcome(b.state, a.sent + b.sent);
    if view.mode.Multi? || view.mode.Quorum? {
      assert Teach(view.whoami, slot, LogAt(a.state, slot).value) in a.sent;
    }
  }

  lemma AddedAt(c: CaptainState, slot: nat, v: PropValue)
    ensures var d := AddChosen(c, slot, v);
      slot < |d.chosenValues| && d.chosenValues[slot].Some? && LogAt(d, slot) == d.chosenValues[slot]
  {
    hide Frontier, Due;
  }

  /** An entry that a message adds to the log is announced, by the node or before. */
  lemma EntryAnnounced(cfg: Config, d: DistState, e: Event, slot: nat)
    requires ValidConfig(cfg) && SystemInv(cfg, d) && Enabled(d, e) && e.Delivers? && AllAnnounced(d)
    requires LogAt(React(cfg, d, e).state, slot).Some?
    ensures Decided(Apply(d, e.node, React(cfg, d, e)).net, slot)
  {
    hide AfterAccepted, OnAccepted, NodeInv, SlotsInv, ValuesOk, LogsLearned, NewsLearned, LogAt, HandleMsg;
    var view, c, m := cfg[e.node], d.nodes[e.node], e.msg;
    var o := React(cfg, d, e);
    var net := Apply(d, e.node, o).net;
    assert NodeInv(view, c) && SlotNumbered(m);
    HandleMsgLearns(view, c, m);
    assert EntryOk(view, c, m, o.state, slot);
    if LogAt(c, slot).Some? {
      assert c == d.nodes[e.node] && Decided(d.net, slot);
      var n, id :| Decide(n, slot, id) in d.net;
      assert Decide(n, slot, id) in net;
    } else {
      var v := LogAt(o.state, slot).value;
      assert Justified(view, c, m, slot, v);
      match m
      case Accepted(_, _, ack) =>
        NewEntryByChoice(view, c, m, slot);
        ChoiceIsAnnounced(view, c, slot, ack, v);
        assert Decide(view.whoami, slot, v.id) in net;
      case Decide(n, _, id) => assert Decide(n, slot, id) in net;
      case Teach(_, _, _) =>
        assert Decided(d.net, m.slot);
        var n, id :| Decide(n, slot, id) in d.net;
        assert Decide(n, slot, id) in net;
    }
  }

  /** A vote adds to the log only in the second phase, and only to a working node. */
  lemma NewEntryByChoice(view: View, c: CaptainState, m: Message, slot: nat)
    requires m.Accepted? && LogAt(HandleMsg(view, c, m).state, slot) != LogAt(c, slot)
    ensures c.work && m.slot in c.proposers && c.proposers[m.slot].status.PHASEII?
    ensures HandleMsg(view, c, m) == OnAccepted(view, c, m.slot, m.ack)
  {
    hide AfterAccepted, Announce, Replace, Restarted;
  }

  lemma OthersAnnounce(cfg: Config, d: DistState, e: Event)
    requires |d.nodes| == |cfg| && Enabled(d, e) && !e.Delivers?
    ensures React(cfg, d, e).state.chosenValues == d.nodes[e.node].chosenValues
    ensures forall x :: x in React(cfg, d, e).sent ==> !x.Teach?
  {
    hide CommitValue;
    var view, c := cfg[e.node], d.nodes[e.node];
    if e.Commits? {
      var v := PropValue(c.valueId + NODE_SPAN, e.data);
      CommitValueSays(view, c.(valueId := v.id, issued := c.issued + [v]), v);
    }
  }

  lemma AnnouncedStep(cfg: Config, d: DistState, d': DistState, e: Event)
    requires ValidConfig(cfg) && SystemInv(cfg, d) && Next(cfg, d, d', e) && AllAnnounced(d)
    ensures AllAnnounced(d')
  {
    hide SystemInv, React, LogAt, Decided;
    var o := React(cfg, d, e);
    forall i, slot: nat | 0 <= i < |d'.nodes| && LogAt(d'.nodes[i], slot).Some?
      ensures Decided(d'.net, slot)
    {
      if i == e.node && e.Delivers? {
        EntryAnnounced(cfg, d, e, slot);
      } else {
        if i == e.node {
          OthersAnnounce(cfg, d, e);
          SameEntries(o.state, d.nodes[i]);
        }
        DecidedMore(d.net, d'.net, slot);
      }
    }
    forall m | m in d'.net && m.Teach?
      ensures Decided(d'.net, m.slot)
    {
      if m in d.net {
        DecidedMore(d.net, d'.net, m.slot);
      } else if e.Delivers? {
        TaughtIsLogged(cfg, d, e, m);
        EntryAnnounced(cfg, d, e, m.slot);
      } else {
        OthersAnnounce(cfg, d, e);
      }
    }
  }

  lemma DecidedMore(net: set<Message>, net': set<Message>, slot: nat)
    requires Decided(net, slot) && net <= net'
    ensures Decided(net', slot)
  {}

  lemma TaughtIsLogged(cfg: Config, d: DistState, e: Event, m: Message)
    requires ValidConfig(cfg) && SystemInv(cfg, d) && Enabled(d, e) && e.Delivers?
    requires m in React(cfg, d, e).sent && m.Teach?
    ensures LogAt(React(cfg, d, e).state, m.slot).Some?
  {
    hide NodeInv, SlotsInv, ValuesOk, LogsLearned, NewsLearned, LogAt, HandleMsg, EntryOk;
    assert NodeInv(cfg[e.node], d.nodes[e.node]) && SlotNumbered(e.msg);
    HandleMsgLearns(cfg[e.node], d.nodes[e.node], e.msg);
    assert AnnouncementOk(cfg[e.node], d.nodes[e.node], e.msg, React(cfg, d, e).state, m);
  }

  lemma {:induction false} RunAnnounced(cfg: Config, states: seq<DistState>, events: seq<Event>, k: nat)
    requires ValidConfig(cfg) && Run(cfg, states, events) && k < |states|
    ensures AllAnnounced(states[k])
  {
    hide SystemInv, Next, ValidConfig;
    if k > 0 {
      RunAnnounced(cfg, states, events, k - 1);
      RunInv(cfg, states, events, k - 1);
      AnnouncedStep(cfg, states[k - 1], states[k], events[k - 1]);
    }
  }

  /** In every reachable state, whatever slot some log holds has been decided in a message. */
  lemma ReachableAnnounced(cfg: Config, d: DistState)
    requires ValidConfig(cfg) && Reachable(cfg, d)
    ensures AllAnnounced(d)
  {
    hide AllAnnounced, Next, ValidConfig;
    var states, events :| Run(cfg, states, events) && states[|states| - 1] == d;
    RunAnnounced(cfg, states, events, |states| - 1);
  }

  // ---------------------------------------------------------------- every missed slot can be learned

  /** Deliveries of DECIDE, LEARN and TEACH, one after the other. */
  ghost predicate Teaching(cfg: Config, states: seq<DistState>, events: seq<Event>) {
    |states| == |events| + 1 && forall k :: 0 <= k < |events| ==>
      Next(cfg, states[k], states[k + 1], events[k]) &&
      events[k].Delivers? && (events[k].msg.Decide? || events[k].msg.Learn? || events[k].msg.Teach?)
  }

  /** A working node handles a message that reaches anybody. */
  lemma Hears(cfg: Config, d: DistState, j: nat, m: Message) returns (d': DistState)
    requires Up(cfg, d) && j < |cfg| && m in d.net && (m.Decide? || m.Learn? || m.Teach?)
    ensures Up(cfg, d') && Next(cfg, d, d', Delivers(j, m)) && d.net <= d'.net
    ensures d'.nodes[j] == HandleMsg(cfg[j], d.nodes[j], m).state
    ensures forall p :: 0 <= p < |d.nodes| && p != j ==> d'.nodes[p] == d.nodes[p]
    ensures forall x :: x in HandleMsg(cfg[j], d.nodes[j], m).sent ==> x in d'.net
  {
    hide AddChosen;
    d' := Apply(d, j, HandleMsg(cfg[j], d.nodes[j], m));
    ReachNext(cfg, d, d', Delivers(j, m));
    LearningKeepsWork(cfg[j], d.nodes[j], m);
  }

  lemma LearningKeepsWork(view: View, c: CaptainState, m: Message)
    requires m.Decide? || m.Learn? || m.Teach?
    ensures HandleMsg(view, c, m).state.work == c.work
  {}

  lemma LogsAreOk(cfg: Config, d: DistState, j: nat)
    requires ValidConfig(cfg) && Up(cfg, d) && j < |cfg|
    ensures LogOk(d.nodes[j])
  {
    hide Reachable;
    Replication.BooksHold(cfg, d, j);
  }

  /**
   From every reachable state without crashed nodes in which node `i` knows a slot, at most three
   deliveries of DECIDE, LEARN and TEACH make any other node know it too, with the same value.
   */
  lemma CanLearn(cfg: Config, d: DistState, i: nat, j: nat, slot: nat)
    returns (d': DistState, states: seq<DistState>, events: seq<Event>)
    requires ValidConfig(cfg) && Up(cfg, d) && i < |cfg| && j < |cfg| && LogAt(d.nodes[i], slot).Some?
    ensures Teaching(cfg, states, events) && |events| <= 3 && states[0] == d && states[|events|] == d'
    ensures Up(cfg, d') && LogAt(d'.nodes[j], slot) == LogAt(d.nodes[i], slot)
    ensures forall p :: 0 <= p < |cfg| && p != j ==> d'.nodes[p] == d.nodes[p]
    ensures LogGrows(d.nodes[j], d'.nodes[j])
  {
    hide Reachable, ValidConfig, HandleMsg, LogAt, AllAnnounced, LogOk, LogGrows, Next, AcceptorAt;
    LogsAreOk(cfg, d, i);
    LogsAreOk(cfg, d, j);
    SlotFromOne(d.nodes[i], slot);
    if LogAt(d.nodes[j], slot).Some? {
      d', states, events := d, [d], [];
      Replication.LogsAgree(cfg, d, i, j, slot);
      GrowsToItself(d.nodes[j]);
    } else {
      assert Decided(d.net, slot) by { DecidedSomewhere(cfg, d, i, slot); }
      var n, id :| Decide(n, slot, id) in d.net;
      DecideFillsOrAsks(cfg[j], d.nodes[j], n, slot, id);
      var u := Hears(cfg, d, j, Decide(n, slot, id));
      var e := Delivers(j, Decide(n, slot, id));
      if LogAt(u.nodes[j], slot).Some? {
        d', states, events := u, [d, u], [e];
        StillKnown(cfg, d, u, i, j, slot);
      } else {
        var lrn := Learn(cfg[j].whoami, slot);
        LearnTeaches(cfg[i], u.nodes[i], cfg[j].whoami, slot);
        var t := Hears(cfg, u, i, lrn);
        var tch := Teach(cfg[i].whoami, slot, LogAt(d.nodes[i], slot).value);
        TeachFills(cfg[j], t.nodes[j], cfg[i].whoami, slot, LogAt(d.nodes[i], slot).value);
        d' := Hears(cfg, t, j, tch);
        states, events := [d, u, t, d'], [e, Delivers(i, lrn), Delivers(j, tch)];
      }
    }
  }

  lemma SlotFromOne(c: CaptainState, slot: nat)
    requires LogOk(c) && LogAt(c, slot).Some?
    ensures slot >= 1
  {}

  lemma GrowsToItself(c: CaptainState)
    ensures LogGrows(c, c)
  {}

  lemma DecidedSomewhere(cfg: Config, d: DistState, i: nat, slot: nat)
    requires ValidConfig(cfg) && Up(cfg, d) && i < |cfg| && LogAt(d.nodes[i], slot).Some?
    ensures Decided(d.net, slot)
  {
    hide Reachable;
    ReachableAnnounced(cfg, d);
  }

  /** What the other node has learned is what the first one knows. */
  lemma StillKnown(cfg: Config, d: DistState, u: DistState, i: nat, j: nat, slot: nat)
    requires ValidConfig(cfg) && Up(cfg, u) && i < |cfg| == |d.nodes| && j < |cfg| && i != j && u.nodes[i] == d.nodes[i]
    requires LogAt(d.nodes[i], slot).Some? && LogAt(u.nodes[j], slot).Some?
    ensures LogAt(u.nodes[j], slot) == LogAt(d.nodes[i], slot)
  {
    hide Reachable, LogAt;
    Replication.LogsAgree(cfg, u, i, j, slot);
  }

  /** One after the other, node `j` learns the first `k` slots that node `i` has called back. */
  lemma {:induction false} LearnsUpTo(cfg: Config, d: DistState, i: nat, j: nat, k: nat) returns (d': DistState)
    requires ValidConfig(cfg) && Up(cfg, d) && i < |cfg| && j < |cfg| && i != j && k <= d.nodes[i].maxFrontier
    ensures Up(cfg, d') && d'.nodes[i] == d.nodes[i]
    ensures forall slot: nat :: 1 <= slot <= k ==> LogAt(d'.nodes[j], slot).Some?
  {
    hide Reachable, ValidConfig, Teaching, LogOk;
    d' := d;
    if k > 0 {
      var u := LearnsUpTo(cfg, d, i, j, k - 1);
      LogsAreOk(cfg, u, i);
      FrontierIsLogged(u.nodes[i], k);
      var states, events;
      d', states, events := CanLearn(cfg, u, i, j, k);
      GrowsAtSlots(u.nodes[j], d'.nodes[j]);
    }
  }

  lemma GrowsAtSlots(c: CaptainState, d: CaptainState)
    requires LogGrows(c, d)
    ensures forall slot: nat :: LogAt(c, slot).Some? ==> LogAt(d, slot) == LogAt(c, slot)
  {}

  lemma FrontierIsLogged(c: CaptainState, slot: nat)
    requires LogOk(c) && 1 <= slot <= c.maxFrontier
    ensures LogAt(c, slot).Some?
  {}

  /** A log without a hole up to `k` has been called back that far. */
  lemma NoHoleUpTo(c: CaptainState, k: nat)
    requires LogOk(c) && forall slot: nat :: 1 <= slot <= k ==> LogAt(c, slot).Some?
    ensures k <= |c.callbacks|
  {
    HoleAfterFrontier(c);
  }

  lemma HoleAfterFrontier(c: CaptainState)
    requires LogOk(c)
    ensures LogAt(c, c.maxFrontier + 1).None? && |c.callbacks| == c.maxFrontier
  {}

  /**
   From every reachable state without crashed nodes, any node can be led by DECIDE, LEARN and TEACH
   to a state in which it has called back all that another node has, in the same order.
   */
  lemma CanCatchUp(cfg: Config, d: DistState, i: nat, j: nat) returns (d': DistState)
    requires ValidConfig(cfg) && Up(cfg, d) && i < |cfg| && j < |cfg|
    ensures Up(cfg, d') && d.nodes[i].callbacks <= d'.nodes[j].callbacks
  {
    hide Reachable, ValidConfig, LogOk;
    d' := d;
    if i != j {
      var k := d.nodes[i].maxFrontier;
      d' := LearnsUpTo(cfg, d, i, j, k);
      LogsAreOk(cfg, d', j);
      NoHoleUpTo(d'.nodes[j], k);
      LogsAreOk(cfg, d', i);
      HoleAfterFrontier(d'.nodes[i]);
      Replication.CallbacksArePrefixes(cfg, d', i, j);
    }
  }
}
