/** Which ids are committed twice: those of requests that masters handle twice. */
module ForwardedCommits {
  import opened PaxosTypes
  import opened Acceptors
  import opened Proposers
  import opened CaptainSpec
  import opened CaptainInvariant
  import opened Protocol
  import opened SystemInvariant
  import opened AtMostOnce

  // ---------------------------------------------------------------- what can be read off the events

  ghost predicate CrashedBefore(events: seq<Event>, k: nat, i: nat) {
    exists a :: 0 <= a < k && a < |events| && events[a] == Crashes(i)
  }

  /** Event `k` hands a forwarded value to a working node that takes itself for the master. */
  ghost predicate Handled(cfg: Config, events: seq<Event>, k: nat) {
    k < |events| && events[k].Delivers? && events[k].msg.Commit? &&
    events[k].node < |cfg| && cfg[events[k].node].master == events[k].node && !CrashedBefore(events, k, events[k].node)
  }

  /** No two of the first `k` events hand over values of one id. */
  ghost predicate HandledOnce(cfg: Config, events: seq<Event>, k: nat) {
    forall a: nat, b: nat :: a < b < k && Handled(cfg, events, a) && Handled(cfg, events, b) ==>
      events[a].msg.value.id != events[b].msg.value.id
  }

  // ---------------------------------------------------------------- where committed values come from

  ghost predicate WorkOk(events: seq<Event>, k: nat, d: DistState) {
    forall i: nat :: i < |d.nodes| ==> (d.nodes[i].work <==> !CrashedBefore(events, k, i))
  }

  /** Ids of forwarded values belong to nodes that are no masters. */
  ghost predicate ForwardedId(cfg: Config, id: nat) {
    Owner(id) < |cfg| && cfg[Owner(id)].master != Owner(id)
  }

  ghost predicate NetForwards(cfg: Config, net: set<Message>) {
    forall m :: m in net && m.Commit? ==> ForwardedId(cfg, m.value.id)
  }

  /** The value was handed to the node by one of the first `k` events. */
  ghost predicate WasHandled(cfg: Config, events: seq<Event>, k: nat, i: nat, v: PropValue) {
    exists a: nat :: a < k && Handled(cfg, events, a) && events[a].node == i && events[a].msg.value == v
  }

  /** A committed value is one a master created itself, or one that was handed to it. */
  ghost predicate CommittedFrom(cfg: Config, events: seq<Event>, k: nat, d: DistState) {
    forall i: nat, v :: i < |d.nodes| && i < |cfg| && v in d.nodes[i].committed ==>
      (cfg[i].master == i && v in d.nodes[i].issued) || WasHandled(cfg, events, k, i, v)
  }

  /** Whatever was handed over is committed. */
  ghost predicate HandledCommitted(cfg: Config, events: seq<Event>, k: nat, d: DistState) {
    forall a: nat :: a < k && Handled(cfg, events, a) && events[a].node < |d.nodes| ==>
      events[a].msg.value in d.nodes[events[a].node].committed
  }

  ghost predicate CommitsInv(cfg: Config, events: seq<Event>, k: nat, d: DistState) {
    WorkOk(events, k, d) && NetForwards(cfg, d.net) && CommittedFrom(cfg, events, k, d) &&
      HandledCommitted(cfg, events, k, d)
  }

  // ---------------------------------------------------------------- what one event commits

  lemma HandleMsgCommits(view: View, c: CaptainState, m: Message)
    requires !m.Commit?
    ensures var o := HandleMsg(view, c, m);
      o.state.committed == c.committed && o.state.issued == c.issued && o.state.work == c.work && NoCommits(o.sent)
  {
    hide AfterPromise, AfterAccepted, AddChosen, WithAcceptor, Restarted;
    if m.Accepted? {
      OnAcceptedCommits(view, c, m.slot, m.ack);
    } else if m.Decide? && AcceptorAt(c, m.slot).maxValue.Some? {
      AddChosenKeeps(c, m.slot, AcceptorAt(c, m.slot).maxValue.value);
    } else if m.Teach? {
      AddChosenKeeps(c, m.slot, m.value);
    } else {
      SetAcceptor(c, m);
    }
  }

  ghost predicate NoCommits(sent: seq<Message>) {
    forall x :: x in sent ==> !x.Commit?
  }

  lemma OnAcceptedCommits(view: View, c: CaptainState, slot: nat, m: AcceptAck)
    ensures var o := OnAccepted(view, c, slot, m);
      o.state.committed == c.committed && o.state.issued == c.issued && o.state.work == c.work && NoCommits(o.sent)
  {
    hide AfterAccepted, Replace, Restarted, AddChosen;
    if slot in c.proposers {
      var info := c.proposers[slot];
      var (p, r) := AfterAccepted(view, info.proposer, m);
      if r == CHOOSE && p.currValue.Some? {
        var v := p.currValue.value;
        var d := c.(proposers := c.proposers[slot := info.(proposer := p, status := CHOSEN)]);
        AddChosenKeeps(Told(d, info, v), slot, v);
        ReplaceCommits(view, Announce(view, d, slot, info, v).state, slot, info, v);
      }
    }
  }

  lemma ReplaceCommits(view: View, c: CaptainState, slot: nat, info: InfoState, v: PropValue)
    ensures var o := Replace(view, c, slot, info, v);
      o.state.committed == c.committed && o.state.issued == c.issued && o.state.work == c.work && NoCommits(o.sent)
  {}

  lemma CommitValueCommits(view: View, c: CaptainState, v: PropValue)
    requires WindowOk(view, c)
    ensures var o := CommitValue(view, c, v);
      o.state.committed == c.committed + [v] && o.state.issued == c.issued && o.state.work == c.work &&
        NoCommits(o.sent)
  {}

  /** What the event adds to the committed values of its node. */
  ghost function Appended(cfg: Config, d: DistState, e: Event): seq<PropValue>
    requires |d.nodes| == |cfg| && Enabled(d, e)
  {
    var c := d.nodes[e.node];
    if cfg[e.node].master != e.node then []
    else if e.Commits? then [PropValue(c.valueId + NODE_SPAN, e.data)]
    else if e.Delivers? && e.msg.Commit? && c.work then [e.msg.value]
    else []
  }

  ghost function Created(d: DistState, e: Event): seq<PropValue>
    requires Enabled(d, e)
  {
    if e.Commits? then [PropValue(d.nodes[e.node].valueId + NODE_SPAN, e.data)] else []
  }

  ghost predicate CommitsSent(cfg: Config, d: DistState, e: Event, sent: seq<Message>)
    requires |d.nodes| == |cfg| && Enabled(d, e)
  {
    forall x :: x in sent && x.Commit? ==>
      (e.Commits? && cfg[e.node].master != e.node && [x.value] == Created(d, e)) ||
      (e.Delivers? && e.msg.Commit? && x.value == e.msg.value)
  }

  lemma ReactCommits(cfg: Config, d: DistState, e: Event)
    requires ValidConfig(cfg) && NodesInv(cfg, d) && Enabled(d, e)
    ensures var c, o := d.nodes[e.node], React(cfg, d, e);
      o.state.committed == c.committed + Appended(cfg, d, e) && o.state.issued == c.issued + Created(d, e) &&
      (o.state.work <==> c.work && !e.Crashes?) && CommitsSent(cfg, d, e, o.sent)
  {
    hide CommitValue, QueueOk, LogOk, IdsOk;
    var i := e.node;
    var view, c := cfg[i], d.nodes[i];
    assert ValidView(cfg, i, view) && NodeInv(view, c);
    WindowOfBooks(view, c);
    match e
    case Commits(_, data) =>
      var v := PropValue(c.valueId + NODE_SPAN, data);
      CommitValueCommits(view, c.(valueId := v.id, issued := c.issued + [v]), v);
    case Delivers(_, m) =>
      if m.Commit? {
        CommitValueCommits(view, c, m.value);
      } else {
        HandleMsgCommits(view, c, m);
      }
    case Crashes(_) =>
  }

  // ---------------------------------------------------------------- every event keeps the origins

  lemma CrashedNext(events: seq<Event>, k: nat, i: nat)
    requires k < |events|
    ensures CrashedBefore(events, k + 1, i) <==> CrashedBefore(events, k, i) || events[k] == Crashes(i)
  {
    if CrashedBefore(events, k, i) {
      var a :| 0 <= a < k && a < |events| && events[a] == Crashes(i);
      assert a < k + 1;
    }
    if events[k] == Crashes(i) {
      assert 0 <= k < k + 1;
    }
  }

  lemma HandledHere(cfg: Config, events: seq<Event>, k: nat, d: DistState)
    requires ValidConfig(cfg) && k < |events| && |d.nodes| == |cfg| && Enabled(d, events[k]) && WorkOk(events, k, d)
    ensures Handled(cfg, events, k) <==> Appended(cfg, d, events[k]) != [] && !events[k].Commits?
    ensures Handled(cfg, events, k) ==> Appended(cfg, d, events[k]) == [events[k].msg.value]
  {}

  /** The origins of committed values after one more event. */
  lemma CommitsStep(cfg: Config, events: seq<Event>, k: nat, d: DistState, d': DistState)
    requires ValidConfig(cfg) && k < |events| && NodesInv(cfg, d) && Next(cfg, d, d', events[k])
    requires CommitsInv(cfg, events, k, d)
    ensures CommitsInv(cfg, events, k + 1, d')
  {
    hide React, NodeInv, Appended, Created, CommitsSent, Handled, CrashedBefore;
    var e := events[k];
    ReactCommits(cfg, d, e);
    forall i: nat | i < |d'.nodes|
      ensures d'.nodes[i].work <==> !CrashedBefore(events, k + 1, i)
    {
      CrashedNext(events, k, i);
    }
    SentForwards(cfg, d, e);
    FromStep(cfg, events, k, d, d');
    HandledStep(cfg, events, k, d, d');
  }

  lemma SentForwards(cfg: Config, d: DistState, e: Event)
    requires ValidConfig(cfg) && NodesInv(cfg, d) && Enabled(d, e) && NetForwards(cfg, d.net)
    ensures NetForwards(cfg, Apply(d, e.node, React(cfg, d, e)).net)
  {
    hide React, QueueOk, LogOk;
    ReactCommits(cfg, d, e);
    if e.Commits? {
      var view, c := cfg[e.node], d.nodes[e.node];
      assert ValidView(cfg, e.node, view) && IdsOk(view, c) by { assert NodeInv(view, c); }
      OwnerOf(|c.issued| + 1, e.node);
    }
  }

  lemma OwnerOf(a: nat, i: nat)
    requires i < NODE_SPAN
    ensures Owner(a * NODE_SPAN + i) == i
  {}

  lemma HandledEarlier(cfg: Config, events: seq<Event>, k: nat, i: nat, v: PropValue)
    ensures WasHandled(cfg, events, k, i, v) ==> WasHandled(cfg, events, k + 1, i, v)
  {
    if WasHandled(cfg, events, k, i, v) {
      var a: nat :| a < k && Handled(cfg, events, a) && events[a].node == i && events[a].msg.value == v;
      assert a < k + 1;
    }
  }

  lemma FromStep(cfg: Config, events: seq<Event>, k: nat, d: DistState, d': DistState)
    requires ValidConfig(cfg) && k < |events| && NodesInv(cfg, d) && Next(cfg, d, d', events[k])
    requires WorkOk(events, k, d) && CommittedFrom(cfg, events, k, d)
    ensures CommittedFrom(cfg, events, k + 1, d')
  {
    hide React, NodeInv, Handled, CommitsSent, WorkOk;
    var e := events[k];
    ReactCommits(cfg, d, e);
    HandledHere(cfg, events, k, d);
    forall i: nat, v | i < |d'.nodes| && i < |cfg| && v in d'.nodes[i].committed
      ensures (cfg[i].master == i && v in d'.nodes[i].issued) || WasHandled(cfg, events, k + 1, i, v)
    {
      if v in d.nodes[i].committed {
        HandledEarlier(cfg, events, k, i, v);
      } else {
        assert i == e.node && v in Appended(cfg, d, e);
        if !e.Commits? { assert Handled(cfg, events, k) && events[k].node == i; }
      }
    }
  }

  lemma HandledStep(cfg: Config, events: seq<Event>, k: nat, d: DistState, d': DistState)
    requires ValidConfig(cfg) && k < |events| && NodesInv(cfg, d) && Next(cfg, d, d', events[k])
    requires WorkOk(events, k, d) && HandledCommitted(cfg, events, k, d)
    ensures HandledCommitted(cfg, events, k + 1, d')
  {
    hide React, NodeInv, CommitsSent, WorkOk, Appended;
    ReactCommits(cfg, d, events[k]);
    HandledHere(cfg, events, k, d);
  }

  lemma {:induction false} RunCommits(cfg: Config, states: seq<DistState>, events: seq<Event>, k: nat)
    requires ValidConfig(cfg) && Run(cfg, states, events) && k < |states|
    ensures CommitsInv(cfg, events, k, states[k])
  {
    hide CommitsInv, Next, NodeInv, SlotsInv, ValuesOk, LogsLearned, NewsLearned, ValidConfig;
    if k == 0 {
      StartCommits(cfg, events, states[0]);
    } else {
      RunCommits(cfg, states, events, k - 1);
      RunInv(cfg, states, events, k - 1);
      CommitsStep(cfg, events, k - 1, states[k - 1], states[k]);
    }
  }

  lemma StartCommits(cfg: Config, events: seq<Event>, d: DistState)
    requires Start(cfg, d)
    ensures CommitsInv(cfg, events, 0, d)
  {}

  // ---------------------------------------------------------------- committed once, exactly when handled once

  ghost predicate Unused(d: DistState, id: nat) {
    forall i: nat, v :: i < |d.nodes| && v in d.nodes[i].committed ==> v.id != id
  }

  /** One more committed value: nothing is committed twice if its id is new. */
  lemma OneMore(d: DistState, d': DistState, i: nat, v: PropValue)
    requires i < |d.nodes| && |d'.nodes| == |d.nodes| && d'.nodes[i].committed == d.nodes[i].committed + [v]
    requires forall j :: 0 <= j < |d.nodes| && j != i ==> d'.nodes[j].committed == d.nodes[j].committed
    ensures CommittedOnce(d') <==> CommittedOnce(d) && Unused(d, v.id)
  {
    if CommittedOnce(d') {
      OneLess(d, d', i, v);
    }
    if CommittedOnce(d) && Unused(d, v.id) {
      OneNew(d, d', i, v);
    }
  }

  lemma OneLess(d: DistState, d': DistState, i: nat, v: PropValue)
    requires i < |d.nodes| && |d'.nodes| == |d.nodes| && d'.nodes[i].committed == d.nodes[i].committed + [v]
    requires forall j :: 0 <= j < |d.nodes| && j != i ==> d'.nodes[j].committed == d.nodes[j].committed
    requires CommittedOnce(d')
    ensures CommittedOnce(d) && Unused(d, v.id)
  {
    var last := |d.nodes[i].committed|;
    assert d'.nodes[i].committed[last] == v;
    forall j | 0 <= j < |d.nodes|
      ensures d.nodes[j].committed <= d'.nodes[j].committed && DistinctIds(d.nodes[j].committed)
    {
      assert DistinctIds(d'.nodes[j].committed);
    }
    forall j, l | 0 <= j < l < |d.nodes|
      ensures NoneShared(d.nodes[j].committed, d.nodes[l].committed)
    {
      assert NoneShared(d'.nodes[j].committed, d'.nodes[l].committed);
    }
    forall j: nat, w | j < |d.nodes| && w in d.nodes[j].committed
      ensures w.id != v.id
    {
      var a :| 0 <= a < |d.nodes[j].committed| && d.nodes[j].committed[a] == w;
      assert d'.nodes[j].committed[a] == w;
      if j < i {
        assert NoneShared(d'.nodes[j].committed, d'.nodes[i].committed);
      } else if i < j {
        assert NoneShared(d'.nodes[i].committed, d'.nodes[j].committed);
      } else {
        assert DistinctIds(d'.nodes[i].committed);
      }
    }
  }

  lemma OneNew(d: DistState, d': DistState, i: nat, v: PropValue)
    requires i < |d.nodes| && |d'.nodes| == |d.nodes| && d'.nodes[i].committed == d.nodes[i].committed + [v]
    requires forall j :: 0 <= j < |d.nodes| && j != i ==> d'.nodes[j].committed == d.nodes[j].committed
    requires CommittedOnce(d) && Unused(d, v.id)
    ensures CommittedOnce(d')
  {
    forall j | 0 <= j < |d.nodes|
      ensures DistinctIds(d'.nodes[j].committed)
    {
      assert DistinctIds(d.nodes[j].committed);
    }
    forall j, l | 0 <= j < l < |d.nodes|
      ensures NoneShared(d'.nodes[j].committed, d'.nodes[l].committed)
    {
      assert NoneShared(d.nodes[j].committed, d.nodes[l].committed);
    }
  }

  /** A node that numbers a value of its own takes an id nobody has committed. */
  lemma OwnIdUnused(cfg: Config, events: seq<Event>, k: nat, d: DistState, i: nat)
    requires ValidConfig(cfg) && NodesInv(cfg, d) && CommitsInv(cfg, events, k, d) && HandledForwards(cfg, events, k)
    requires i < |cfg| && cfg[i].master == i
    ensures Unused(d, d.nodes[i].valueId + NODE_SPAN)
  {
    hide QueueOk, LogOk, Handled, WorkOk, NetForwards, HandledCommitted;
    assert NodeInv(cfg[i], d.nodes[i]) && ValidView(cfg, i, cfg[i]);
    var n := |d.nodes[i].issued|;
    forall j: nat, v | j < |d.nodes| && v in d.nodes[j].committed
      ensures v.id != d.nodes[i].valueId + NODE_SPAN
    {
      OwnerOf(n + 1, i);
      if WasHandled(cfg, events, k, j, v) {
        HandledIsForwarded(cfg, events, k, j, v);
      } else {
        assert NodeInv(cfg[j], d.nodes[j]) && ValidView(cfg, j, cfg[j]);
        var a :| 0 <= a < |d.nodes[j].issued| && d.nodes[j].issued[a] == v;
        if v.id == (n + 1) * NODE_SPAN + i { SplitId(a + 1, j, n + 1, i); }
      }
    }
  }

  ghost predicate HandledForwards(cfg: Config, events: seq<Event>, k: nat) {
    forall a: nat :: a < k && Handled(cfg, events, a) ==> ForwardedId(cfg, events[a].msg.value.id)
  }

  lemma HandledIsForwarded(cfg: Config, events: seq<Event>, k: nat, i: nat, v: PropValue)
    requires HandledForwards(cfg, events, k) && WasHandled(cfg, events, k, i, v)
    ensures ForwardedId(cfg, v.id)
  {}

  lemma RunForwards(cfg: Config, states: seq<DistState>, events: seq<Event>, k: nat)
    requires ValidConfig(cfg) && Run(cfg, states, events) && k < |states|
    ensures HandledForwards(cfg, events, k)
  {
    hide React, ForwardedId, ValidConfig;
    forall a: nat | a < k && Handled(cfg, events, a)
      ensures ForwardedId(cfg, events[a].msg.value.id)
    {
      RunCommits(cfg, states, events, a);
      assert Next(cfg, states[a], states[a + 1], events[a]);
    }
  }

  /** A forwarded id is committed already exactly if it was handed over before. */
  lemma ForwardedUnused(cfg: Config, events: seq<Event>, k: nat, d: DistState, id: nat)
    requires ValidConfig(cfg) && NodesInv(cfg, d) && CommitsInv(cfg, events, k, d) && ForwardedId(cfg, id)
    ensures Unused(d, id) <==> forall a: nat :: a < k && Handled(cfg, events, a) ==> events[a].msg.value.id != id
  {
    hide QueueOk, LogOk, WorkOk, NetForwards;
    if forall a: nat :: a < k && Handled(cfg, events, a) ==> events[a].msg.value.id != id {
      forall j: nat, v | j < |d.nodes| && v in d.nodes[j].committed
        ensures v.id != id
      {
        if !WasHandled(cfg, events, k, j, v) {
          assert NodeInv(cfg[j], d.nodes[j]) && ValidView(cfg, j, cfg[j]);
          var a :| 0 <= a < |d.nodes[j].issued| && d.nodes[j].issued[a] == v;
          OwnerOf(a + 1, j);
        }
      }
    }
  }

  /** An event that hands a value over: its id is committed twice from now on, or was not handled before. */
  lemma OneMoreHandled(cfg: Config, events: seq<Event>, k: nat, d: DistState, d': DistState)
    requires ValidConfig(cfg) && NodesInv(cfg, d) && CommitsInv(cfg, events, k, d)
    requires HandledForwards(cfg, events, k + 1)
    requires k < |events| && Next(cfg, d, d', events[k]) && Handled(cfg, events, k)
    requires CommittedOnce(d) <==> HandledOnce(cfg, events, k)
    ensures CommittedOnce(d') <==> HandledOnce(cfg, events, k + 1)
  {
    hide React, NodeInv, ValidConfig, CommittedOnce, Unused, Created, CommitsSent, CrashedBefore, Appended;
    var e := events[k];
    ReactCommits(cfg, d, e);
    HandledHere(cfg, events, k, d);
    OneMore(d, d', e.node, e.msg.value);
    ForwardedUnused(cfg, events, k, d, e.msg.value.id);
  }

  /** Any other event commits nothing twice. */
  lemma NoneHandled(cfg: Config, events: seq<Event>, k: nat, d: DistState, d': DistState)
    requires ValidConfig(cfg) && NodesInv(cfg, d) && CommitsInv(cfg, events, k, d) && HandledForwards(cfg, events, k)
    requires k < |events| && Next(cfg, d, d', events[k]) && !Handled(cfg, events, k)
    ensures CommittedOnce(d') <==> CommittedOnce(d)
  {
    hide React, NodeInv, ValidConfig, CommittedOnce, Unused, Created, CommitsSent, Handled, WorkOk;
    var e := events[k];
    ReactCommits(cfg, d, e);
    HandledHere(cfg, events, k, d);
    if Appended(cfg, d, e) == [] {
      SameCommitted(d, d');
    } else {
      OwnIdUnused(cfg, events, k, d, e.node);
      OneMore(d, d', e.node, Appended(cfg, d, e)[0]);
    }
  }

  /**
   In every run: no id is committed twice, at one node or at two, exactly if no two requests
   with one id reached working nodes that take themselves for the master.
   */
  lemma {:induction false} CommittedOnceIff(cfg: Config, states: seq<DistState>, events: seq<Event>, k: nat)
    requires ValidConfig(cfg) && Run(cfg, states, events) && k < |states|
    ensures CommittedOnce(states[k]) <==> HandledOnce(cfg, events, k)
  {
    hide NodeInv, SlotsInv, ValuesOk, LogsLearned, NewsLearned, ValidConfig, Handled, CommittedOnce, CommitsInv, Next;
    if k == 0 {
      StartOnceCommitted(cfg, states[0]);
    } else {
      CommittedOnceIff(cfg, states, events, k - 1);
      RunCommits(cfg, states, events, k - 1);
      RunForwards(cfg, states, events, k);
      RunForwards(cfg, states, events, k - 1);
      RunInv(cfg, states, events, k - 1);
      if Handled(cfg, events, k - 1) {
        OneMoreHandled(cfg, events, k - 1, states[k - 1], states[k]);
      } else {
        NoneHandled(cfg, events, k - 1, states[k - 1], states[k]);
      }
    }
  }

  lemma StartOnceCommitted(cfg: Config, d: DistState)
    requires Start(cfg, d)
    ensures CommittedOnce(d)
  {}

  lemma SameCommitted(d: DistState, d': DistState)
    requires |d'.nodes| == |d.nodes| && forall j :: 0 <= j < |d.nodes| ==> d'.nodes[j].committed == d.nodes[j].committed
    ensures CommittedOnce(d') <==> CommittedOnce(d)
  {}

  // ---------------------------------------------------------------- at most once, on events

  /** At most once: if no request was handled twice, no id is chosen in two slots. */
  lemma HandledOnceChosenOnce(cfg: Config, states: seq<DistState>, events: seq<Event>, k: nat,
                              slot: nat, slot': nat, v: PropValue, w: PropValue)
    requires ValidConfig(cfg) && Run(cfg, states, events) && k < |states| && HandledOnce(cfg, events, k)
    requires slot >= 1 && slot' >= 1
    requires ChosenIn(cfg, states[k].net, slot, v) && ChosenIn(cfg, states[k].net, slot', w) && v.id == w.id
    ensures slot == slot'
  {
    hide OnceInv, CommittedOnce, ChosenIn, Next, HandledOnce;
    CommittedOnceIff(cfg, states, events, k);
    RunOnce(cfg, states, events, k);
    if slot < slot' {
      ChosenInOneSlot(cfg, states[k], slot, slot', v, w);
    } else if slot' < slot {
      ChosenInOneSlot(cfg, states[k], slot', slot, w, v);
    }
  }

  /** Every value enters through the node that proposes it. */
  ghost predicate LocalRun(events: seq<Event>) {
    forall k :: 0 <= k < |events| && events[k].Delivers? ==> !events[k].msg.Commit?
  }

  /** At most once for locally committed values, over every run. */
  lemma LocalValuesAtMostOnce(cfg: Config, states: seq<DistState>, events: seq<Event>, k: nat,
                              slot: nat, slot': nat, v: PropValue, w: PropValue)
    requires ValidConfig(cfg) && Run(cfg, states, events) && LocalRun(events) && k < |states| && slot >= 1 && slot' >= 1
    requires ChosenIn(cfg, states[k].net, slot, v) && ChosenIn(cfg, states[k].net, slot', w) && v.id == w.id
    ensures slot == slot'
  {
    hide ChosenIn, Run;
    HandledOnceChosenOnce(cfg, states, events, k, slot, slot', v, w);
  }
}
