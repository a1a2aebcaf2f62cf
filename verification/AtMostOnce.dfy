/** A committed value is chosen in at most one slot. */
module AtMostOnce {
  import opened PaxosTypes
  import opened Acceptors
  import opened Proposers
  import opened CaptainSpec
  import opened CaptainInvariant
  import opened Protocol
  import opened SlotRefinement
  import opened SystemInvariant
  import opened Replication
  import Synod
  import SynodInvariant

  // ---------------------------------------------------------------- a slot accepts only what was started there

  /** Proposed values carry ids some proposer of the slot was started with. */
  ghost predicate OriginOk(c: Synod.Params, s: Synod.SlotState, ids: set<nat>) {
    (forall b, v :: Synod.ProposedIn(c, s.net, b, v) ==> v.id in ids) &&
    (forall n :: n in s.proposers ==> s.proposers[n].initValue.id in ids)
  }

  lemma ContinueOrigin(c: Synod.Params, s: Synod.SlotState, view: View, m: PromiseAck, ids: set<nat>)
    requires SynodInvariant.Inv(c, s) && OriginOk(c, s, ids) && Synod.ViewOf(c, view) && view.whoami in s.proposers
    requires Promise(view.whoami, c.slot, m) in s.net
    ensures var (p, r) := AfterPromise(view, s.proposers[view.whoami], m);
      p.initValue == s.proposers[view.whoami].initValue && (r == CONTINUE ==> p.currValue.value.id in ids)
  {
    hide SynodInvariant.Inv, AfterPromise, Granted, Highest;
    var n := view.whoami;
    var p0 := s.proposers[n];
    var (p, r) := AfterPromise(view, p0, m);
    PromiseKeepsInit(view, p0, m);
    SynodInvariant.PromiseOutcome(view, p0, m);
    if r == CONTINUE {
      SynodInvariant.ProposerInOrder(c, s, n);
      SynodInvariant.PromiseFiled(c, s, n, m);
      SynodInvariant.BestReport(c, s, n, p0.(ackPrepare := p0.ackPrepare[m.node := m]));
      ContinueValue(view, p0, m);
      if p.maxValue.Some? {
        var v :| Synod.ProposedIn(c, s.net, p.maxBallot, v) && v.id == p.maxValue.value.id;
      }
    }
  }

  lemma ContinueValue(view: View, p0: ProposerState, m: PromiseAck)
    ensures var (p, r) := AfterPromise(view, p0, m);
      r == CONTINUE ==> p.currValue == if p.maxValue.Some? then p.maxValue else Some(p0.initValue)
  {
    hide Highest, Granted, Shares;
  }

  lemma OriginStep(c: Synod.Params, s: Synod.SlotState, s': Synod.SlotState, step: Synod.Step, ids: set<nat>,
      ids': set<nat>)
    requires SynodInvariant.Inv(c, s) && Synod.Next(c, s, s', step) && OriginOk(c, s, ids) && ids <= ids'
    requires forall n :: n in s'.proposers ==> s'.proposers[n].initValue.id in ids'
    ensures OriginOk(c, s', ids')
  {
    hide SynodInvariant.Inv, AfterPromise, AfterAccepted, AcceptNext, PrepareNext;
    if step.Promised? { ContinueOrigin(c, s, step.view, step.promise, ids); }
    forall b, v | Synod.ProposedIn(c, s'.net, b, v)
      ensures v.id in ids'
    {
      if !Synod.ProposedIn(c, s.net, b, v) {
        match step
        case Fast(view, w) => assert s'.proposers[view.whoami].initValue == w;
        case Promised(view, m) =>
        case _ => assert false;
      }
    }
  }

  // ---------------------------------------------------------------- one node proposes a value again only after losing

  ghost predicate DistinctIds(vs: seq<PropValue>) {
    forall a, b :: 0 <= a < b < |vs| ==> vs[a].id != vs[b].id
  }

  /** Whatever is proposed was proposed a first time. */
  ghost predicate FirstIn(c: CaptainState) {
    forall k :: 0 <= k < |c.proposals| ==> c.proposals[k].value in FirstProposed(c.proposals)
  }

  /** An active proposer is the latest with its value. */
  ghost predicate LatestActive(c: CaptainState) {
    forall s, k :: s in c.proposers && 1 <= s <= k < |c.proposals| ==>
      c.proposals[k].value.id != c.proposals[s - 1].value.id
  }

  /** The slot of index `a` is known to hold another value than the one proposed there. */
  ghost predicate LostAt(c: CaptainState, a: nat)
    requires a < |c.proposals|
  {
    LogAt(c, a + 1).Some? && LogAt(c, a + 1).value.id != c.proposals[a].value.id
  }

  /** A value proposed in a later slot lost every earlier one. */
  ghost predicate Reproposed(c: CaptainState) {
    forall a, b :: 0 <= a < b < |c.proposals| && c.proposals[a].value.id == c.proposals[b].value.id ==> LostAt(c, a)
  }

  ghost predicate OnceOk(c: CaptainState) {
    FirstIn(c) && (DistinctIds(c.committed) ==> LatestActive(c) && Reproposed(c))
  }

  /** Nothing of interest changed but the log and the queue; no proposer is new. */
  lemma SameOnce(c: CaptainState, d: CaptainState)
    requires OnceOk(c) && d.proposals == c.proposals && d.proposers.Keys <= c.proposers.Keys
    requires c.committed <= d.committed && LogGrows(c, d)
    ensures OnceOk(d)
  {
    if DistinctIds(d.committed) {
      assert DistinctIds(c.committed);
      forall a, b | 0 <= a < b < |d.proposals| && d.proposals[a].value.id == d.proposals[b].value.id
        ensures LostAt(d, a)
      {
        assert LostAt(c, a);
      }
    }
  }

  /** A value about to be started for the first time is unlike all that were proposed. */
  lemma FreshValue(view: View, c: CaptainState, v: PropValue, k: nat)
    requires Pending(view, c, v, 1) && FirstIn(c) && DistinctIds(c.committed) && k < |c.proposals|
    ensures c.proposals[k].value.id != v.id
  {
    hide FirstProposed, Active, SlotsOk;
    var first := FirstProposed(c.proposals);
    assert c.proposals[k].value in first;
    var a := IndexOf(first, c.proposals[k].value);
    assert c.committed[a] == first[a] && c.committed[|first|] == v;
  }

  lemma SlotsInRange(view: View, c: CaptainState, v: PropValue)
    requires Pending(view, c, v, 1)
    ensures |c.proposals| == c.maxSlot && forall s :: s in c.proposers ==> 1 <= s <= c.maxSlot
  {}

  lemma IndexOf(vs: seq<PropValue>, v: PropValue) returns (a: nat)
    requires v in vs
    ensures a < |vs| && vs[a] == v
  {
    a :| 0 <= a < |vs| && vs[a] == v;
  }

  lemma FreshStartOnce(view: View, c: CaptainState, v: PropValue, info: InfoState)
    requires Pending(view, c, v, 1) && OnceOk(c) && info.proposer.initValue == v && info.tryTime == 1
    ensures OnceOk(Started(c, info))
  {
    hide FirstProposed, Active, Pending, DistinctIds;
    FirstProposedAdded(c.proposals, Proposal(v, 1));
    var d := Started(c, info);
    if DistinctIds(d.committed) {
      forall k | 0 <= k < |c.proposals|
        ensures c.proposals[k].value.id != v.id
      {
        FreshValue(view, c, v, k);
      }
      SlotsInRange(view, c, v);
      forall a, b | 0 <= a < b < |d.proposals| && d.proposals[a].value.id == d.proposals[b].value.id
        ensures LostAt(d, a)
      {
        assert LostAt(c, a);
      }
    }
  }

  lemma StartNewOnce(view: View, c: CaptainState, v: PropValue)
    requires Pending(view, c, v, 1) && OnceOk(c)
    ensures OnceOk(StartNew(view, c, v).state)
  {
    hide Pending, OnceOk;
    var p := Prepared(NewProposer(v), view.whoami);
    FreshStartOnce(view, c, v, InfoState(1, p, INIT));
    FreshStartOnce(view, c, v, InfoState(1, p.(currValue := Some(v)), PHASEII));
  }

  lemma AgainOnce(view: View, c: CaptainState, slot: nat, info: InfoState)
    requires SlotsOk(view, c) && OnceOk(c) && slot in c.proposers && info.tryTime != 1
    requires info.proposer.initValue == c.proposers[slot].proposer.initValue && LostAt(c, slot - 1)
    ensures OnceOk(Started(c.(proposers := c.proposers - {slot}), info))
  {
    hide FirstProposed, LatestActive, Reproposed, LostAt;
    FirstProposedAdded(c.proposals, Proposal(info.proposer.initValue, info.tryTime));
    assert c.proposals[slot - 1].value == info.proposer.initValue;
    if DistinctIds(c.committed) {
      AgainLatest(view, c, slot, info);
      AgainReproposed(view, c, slot, info);
    }
  }

  /** The new proposer is the latest with its value, and no other active one has it. */
  lemma AgainLatest(view: View, c: CaptainState, slot: nat, info: InfoState)
    requires SlotsOk(view, c) && LatestActive(c) && slot in c.proposers
    requires info.proposer.initValue == c.proposers[slot].proposer.initValue
    ensures LatestActive(Started(c.(proposers := c.proposers - {slot}), info))
  {
    var d := Started(c.(proposers := c.proposers - {slot}), info);
    forall s, k | s in d.proposers && 1 <= s <= k < |d.proposals|
      ensures d.proposals[k].value.id != d.proposals[s - 1].value.id
    {
      if k == |c.proposals| && s <= |c.proposals| {
        assert if s < slot then c.proposals[slot - 1].value.id != c.proposals[s - 1].value.id
          else c.proposals[s - 1].value.id != c.proposals[slot - 1].value.id;
      }
    }
  }

  lemma AgainReproposed(view: View, c: CaptainState, slot: nat, info: InfoState)
    requires SlotsOk(view, c) && LatestActive(c) && Reproposed(c) && slot in c.proposers && LostAt(c, slot - 1)
    requires info.proposer.initValue == c.proposers[slot].proposer.initValue
    ensures Reproposed(Started(c.(proposers := c.proposers - {slot}), info))
  {
    var d := Started(c.(proposers := c.proposers - {slot}), info);
    assert c.proposals[slot - 1].value == info.proposer.initValue;
    forall a, b | 0 <= a < b < |d.proposals| && d.proposals[a].value.id == d.proposals[b].value.id
      ensures LostAt(d, a)
    {
      assert LostAt(c, a);
    }
  }

  lemma CommitValueOnce(view: View, c: CaptainState, v: PropValue)
    requires QueueOk(view, c) && view.master == view.whoami && OnceOk(c)
    ensures OnceOk(CommitValue(view, c, v).state)
  {
    hide Active, FirstProposed, StartNew, OnceOk, SlotsOk;
    var d := c.(committed := c.committed + [v]);
    assert LogGrows(c, d);
    if |c.proposers| == view.window {
      SameOnce(c, CommitValue(view, c, v).state);
    } else {
      assert multiset(d.committed) == multiset(c.committed) + multiset{v};
      assert d.committed == FirstProposed(d.proposals) + [v] + d.toCommit;
      assert SlotsOk(view, d) by { SameSlots(view, c, d); }
      SameOnce(c, d);
      StartNewOnce(view, d, v);
    }
  }

  lemma SameSlots(view: View, c: CaptainState, d: CaptainState)
    requires SlotsOk(view, c) && d.proposers == c.proposers && d.maxSlot == c.maxSlot && d.proposals == c.proposals
    ensures SlotsOk(view, d)
  {}

  lemma NextWaitingOnce(view: View, d: CaptainState)
    requires SlotsOk(view, d) && OrderOk(d) && ConservationOk(d) && d.toCommit != [] && OnceOk(d)
    requires |d.proposers| + 1 == view.window && view.master == view.whoami
    ensures OnceOk(StartNew(view, d.(toCommit := d.toCommit[1..]), d.toCommit[0]).state)
  {
    hide Active, FirstProposed, StartNew, OnceOk;
    var e := d.(toCommit := d.toCommit[1..]);
    assert d.toCommit == [d.toCommit[0]] + d.toCommit[1..];
    assert e.committed == FirstProposed(e.proposals) + [d.toCommit[0]] + e.toCommit;
    assert multiset(d.toCommit) == multiset{d.toCommit[0]} + multiset(e.toCommit);
    SameOnce(d, e);
    StartNewOnce(view, e, d.toCommit[0]);
  }

  /** After the announcement of `v`: the place goes to a waiting value, or to the own value if it lost. */
  lemma ReplaceOnce(view: View, c: CaptainState, slot: nat, info: InfoState, v: PropValue)
    requires SlotsOk(view, c) && WindowOk(view, c) && OrderOk(c) && OnceOk(c) && slot in c.proposers
    requires c.proposers[slot].proposer.initValue == info.proposer.initValue && info.tryTime >= 1
    requires LogAt(c, slot).Some? && LogAt(c, slot).value.id == v.id
    requires v.id == info.proposer.initValue.id ==>
      multiset(c.committed) + multiset{info.proposer.initValue} ==
        multiset(c.toCommit) + Active(c.proposers, c.maxSlot) + multiset(c.informed)
    ensures OnceOk(Replace(view, c, slot, info, v).state)
  {
    hide Active, FirstProposed, StartNew, OnceOk, LogAt, LogGrows;
    var init := info.proposer.initValue;
    var d := c.(proposers := c.proposers - {slot});
    assert LogGrows(c, d) by { SameLogGrows(c, d); }
    if v.id == init.id {
      RemovedBooks(view, c, slot);
      SameOnce(c, d);
      TakenAway(multiset(c.committed), multiset(c.toCommit), Active(d.proposers, d.maxSlot), multiset(c.informed),
        init);
      if d.toCommit != [] {
        NextWaitingOnce(view, d);
      }
    } else {
      AgainOnce(view, c, slot, InfoState(info.tryTime + 1, Prepared(NewProposer(init), view.whoami), INIT));
    }
  }

  lemma SameLogGrows(c: CaptainState, d: CaptainState)
    requires d.chosenValues == c.chosenValues && d.callbacks == c.callbacks
    ensures LogGrows(c, d)
  {}

  lemma ChooseOnce(view: View, c: CaptainState, slot: nat, info: InfoState, v: PropValue)
    requires NodeInv(view, c) && OnceOk(c) && slot in c.proposers
    requires c.proposers[slot].proposer.initValue == info.proposer.initValue
    requires c.proposers[slot].tryTime == info.tryTime
    requires LogAt(c, slot).Some? ==> LogAt(c, slot).value.id == v.id
    ensures OnceOk(Replace(view, Announce(view, c, slot, info, v).state, slot, info, v).state)
  {
    hide Replace, AddChosen, OnceOk, Active, FirstProposed, LogGrows, LogAt, LogOk;
    var e := Told(c, info, v);
    SlotOfProposer(view, c, slot);
    var d := AddChosen(e, slot, v);
    assert d == Announce(view, c, slot, info, v).state;
    SameLog(c, e);
    AddChosenLog(e, slot, v);
    AddChosenKeeps(e, slot, v);
    LogGrowsOn(c, e, d);
    SameEntry(c, e, slot);
    SameOnce(c, d);
    assert v.id == info.proposer.initValue.id ==>
      multiset(d.informed) == multiset(c.informed) + multiset{info.proposer.initValue};
    ReplaceOnce(view, d, slot, info, v);
  }

  lemma SameEntry(c: CaptainState, d: CaptainState, slot: nat)
    requires d.chosenValues == c.chosenValues
    ensures LogAt(d, slot) == LogAt(c, slot)
  {}

  /** The choice made by a vote, if any, agrees with the log. */
  ghost predicate ChoiceAgrees(view: View, c: CaptainState, m: Message) {
    m.Accepted? && m.slot in c.proposers && c.proposers[m.slot].status.PHASEII? &&
    AfterAccepted(view, c.proposers[m.slot].proposer, m.ack).1 == CHOOSE && LogAt(c, m.slot).Some? ==>
      c.proposers[m.slot].proposer.currValue.Some? &&
        LogAt(c, m.slot).value.id == c.proposers[m.slot].proposer.currValue.value.id
  }

  lemma OnAcceptedOnce(view: View, c: CaptainState, slot: nat, m: AcceptAck, to: nat)
    requires NodeInv(view, c) && OnceOk(c) && ChoiceAgrees(view, c, Accepted(to, slot, m))
    ensures OnceOk(OnAccepted(view, c, slot, m).state)
  {
    hide AfterAccepted, Announce, Replace, OnceOk, LogAt, LogGrows, QueueOk, LogOk, Restarted;
    SameLogGrows(c, c);
    if slot in c.proposers && c.proposers[slot].status.PHASEII? {
      var info := c.proposers[slot];
      var (p, r) := AfterAccepted(view, info.proposer, m);
      SlotRefinement.ChooseHasValue(view, info.proposer, m);
      if r == CHOOSE && p.currValue.Some? {
        var d := c.(proposers := c.proposers[slot := info.(proposer := p, status := CHOSEN)]);
        UpdatedBooks(view, c, slot, info.(proposer := p, status := CHOSEN));
        SameLog(c, d);
        SameOnce(c, d);
        SameEntry(c, d, slot);
        ChooseOnce(view, d, slot, info, p.currValue.value);
      } else {
        SameLogGrows(c, OnAccepted(view, c, slot, m).state);
        SameOnce(c, OnAccepted(view, c, slot, m).state);
      }
    }
  }

  lemma OnPromiseOnce(view: View, c: CaptainState, slot: nat, m: PromiseAck)
    requires OnceOk(c)
    ensures OnceOk(OnPromise(view, c, slot, m).state)
  {
    hide AfterPromise, OnceOk, LogGrows, Restarted;
    SameLogGrows(c, OnPromise(view, c, slot, m).state);
    SameOnce(c, OnPromise(view, c, slot, m).state);
  }

  lemma LearnOnce(c: CaptainState, slot: nat, v: PropValue)
    requires LogOk(c) && OnceOk(c) && slot >= 1
    ensures OnceOk(AddChosen(c, slot, v))
  {
    hide AddChosen, OnceOk, LogGrows, LogOk;
    AddChosenLog(c, slot, v);
    AddChosenKeeps(c, slot, v);
    SameOnce(c, AddChosen(c, slot, v));
  }

  lemma HandleMsgOnce(view: View, c: CaptainState, m: Message)
    requires NodeInv(view, c) && OnceOk(c) && SlotNumbered(m) && ChoiceAgrees(view, c, m)
    ensures OnceOk(HandleMsg(view, c, m).state)
  {
    hide OnPromise, OnAccepted, CommitValue, AddChosen, OnceOk, LogGrows, QueueOk, LogOk, ChoiceAgrees, WithAcceptor;
    if c.work {
      match m
      case Promise(to, slot, ack) => OnPromiseOnce(view, c, slot, ack);
      case Accepted(to, slot, ack) => OnAcceptedOnce(view, c, slot, ack, to);
      case Decide(node, slot, valueId) =>
        if AcceptorAt(c, slot).maxValue.Some? { LearnOnce(c, slot, AcceptorAt(c, slot).maxValue.value); }
      case Teach(node, slot, v) => LearnOnce(c, slot, v);
      case Commit(node, v) => if view.whoami == view.master { CommitValueOnce(view, c, v); }
      case _ =>
        SetAcceptor(c, m);
        SameLogGrows(c, HandleMsg(view, c, m).state);
        SameOnce(c, HandleMsg(view, c, m).state);
    }
  }

  lemma SetAcceptor(c: CaptainState, m: Message)
    ensures forall slot: nat, a :: WithAcceptor(c, slot, a) == c.(acceptors := WithAcceptor(c, slot, a).acceptors)
  {}

  lemma LocalCommitOnce(view: View, c: CaptainState, data: string)
    requires NodeInv(view, c) && OnceOk(c)
    ensures OnceOk(LocalCommit(view, c, data).state)
  {
    hide CommitValue, OnceOk, LogGrows, QueueOk;
    var id := c.valueId + NODE_SPAN;
    var d := c.(valueId := id, issued := c.issued + [PropValue(id, data)]);
    SameLogGrows(c, d);
    SameOnce(c, d);
    SameBooks(view, c, d);
    if view.whoami == view.master {
      CommitValueOnce(view, d, PropValue(id, data));
    }
  }

  // ---------------------------------------------------------------- the whole system

  /** The ids some node has started a proposer of the slot with. */
  ghost function StartedIds(d: DistState, slot: nat): set<nat> {
    set i | 0 <= i < |d.nodes| && 1 <= slot <= |d.nodes[i].proposals| :: d.nodes[i].proposals[slot - 1].value.id
  }

  ghost predicate SlotOrigin(cfg: Config, d: DistState, slot: nat)
    requires |cfg| > 0
  {
    OriginOk(ParamsOf(cfg, slot), SlotOf(d, slot), StartedIds(d, slot))
  }

  ghost predicate OnceInv(cfg: Config, d: DistState)
    requires |cfg| > 0
  {
    SystemInv(cfg, d) && (forall i :: 0 <= i < |d.nodes| ==> OnceOk(d.nodes[i])) &&
    (forall slot: nat :: slot >= 1 ==> SlotOrigin(cfg, d, slot))
  }

  lemma StartOnce(cfg: Config, d: DistState)
    requires ValidConfig(cfg) && Start(cfg, d)
    ensures OnceInv(cfg, d)
  {
    hide SystemInv;
    StartInv(cfg, d);
    forall slot: nat | slot >= 1
      ensures SlotOrigin(cfg, d, slot)
    {
      StartSlot(cfg, d, slot);
    }
  }

  lemma ChoicesAgreeWithLog(cfg: Config, d: DistState, e: Event)
    requires ValidConfig(cfg) && SystemInv(cfg, d) && Enabled(d, e) && e.Delivers?
    ensures ChoiceAgrees(cfg[e.node], d.nodes[e.node], e.msg)
  {
    hide AfterAccepted, NodeInv, SlotInv, ChosenIn, LogAt;
    var i := e.node;
    var view, c, m := cfg[i], d.nodes[i], e.msg;
    if m.Accepted? && m.slot in c.proposers && LogAt(c, m.slot).Some? &&
       AfterAccepted(view, c.proposers[m.slot].proposer, m.ack).1 == CHOOSE {
      SlotRefinement.ChooseHasValue(view, c.proposers[m.slot].proposer, m.ack);
      var v := c.proposers[m.slot].proposer.currValue.value;
      assert SlotNumbered(m);
      JustifiedIsChosen(cfg, d, e, m.slot, v);
      ChosenOnce(cfg, d, m.slot, v, LogAt(c, m.slot).value);
    }
  }

  lemma ReactOnce(cfg: Config, d: DistState, e: Event)
    requires ValidConfig(cfg) && OnceInv(cfg, d) && Enabled(d, e)
    ensures OnceOk(React(cfg, d, e).state)
  {
    hide HandleMsg, LocalCommit, OnceOk, NodeInv, SlotOrigin, SlotNumbered, ChoiceAgrees, LogGrows;
    var i := e.node;
    var view, c := cfg[i], d.nodes[i];
    assert NodeInv(view, c) && OnceOk(c);
    match e
    case Commits(_, data) => LocalCommitOnce(view, c, data);
    case Delivers(_, m) =>
      ChoicesAgreeWithLog(cfg, d, e);
      HandleMsgOnce(view, c, m);
    case Crashes(_) =>
      SameLogGrows(c, c.(work := false));
      SameOnce(c, c.(work := false));
  }

  lemma StartedIdsGrow(d: DistState, i: nat, o: Outcome, slot: nat)
    requires i < |d.nodes| && d.nodes[i].proposals <= o.state.proposals
    ensures StartedIds(d, slot) <= StartedIds(Apply(d, i, o), slot)
  {
    var d' := Apply(d, i, o);
    forall id | id in StartedIds(d, slot)
      ensures id in StartedIds(d', slot)
    {
      var j :| 0 <= j < |d.nodes| && 1 <= slot <= |d.nodes[j].proposals| &&
        d.nodes[j].proposals[slot - 1].value.id == id;
      assert d'.nodes[j].proposals[slot - 1] == d.nodes[j].proposals[slot - 1];
    }
  }

  /** The value a proposer was started with is on record. */
  lemma ProposersStarted(cfg: Config, d: DistState, slot: nat)
    requires NodesInv(cfg, d)
    ensures forall n :: n in SlotOf(d, slot).proposers ==>
      SlotOf(d, slot).proposers[n].initValue.id in StartedIds(d, slot)
  {
    forall n | n in SlotOf(d, slot).proposers
      ensures SlotOf(d, slot).proposers[n].initValue.id in StartedIds(d, slot)
    {
      assert NodeInv(cfg[n], d.nodes[n]);
      assert d.nodes[n].proposals[slot - 1].value.id in StartedIds(d, slot);
    }
  }

  lemma OriginStays(cfg: Config, d: DistState, e: Event, slot: nat)
    requires ValidConfig(cfg) && SystemInv(cfg, d) && Enabled(d, e) && slot >= 1 && SlotOrigin(cfg, d, slot)
    ensures SlotOrigin(cfg, Apply(d, e.node, React(cfg, d, e)), slot)
  {
    hide NodeInv, React, Apply, SynodInvariant.Inv, SlotOf, OriginOk, StartedIds, LogGrows;
    var o := React(cfg, d, e);
    var d' := Apply(d, e.node, o);
    NodesStep(cfg, d, e);
    ReactInv(cfg, d, e);
    NodesAreOk(cfg, d);
    NodesAreOk(cfg, d');
    ApplyNode(d, e.node, o);
    EventSteps(cfg, d, e, slot);
    var step :| Synod.Next(ParamsOf(cfg, slot), SlotOf(d, slot), SlotOf(d', slot), step);
    assert SlotInv(cfg, d, slot);
    StartedIdsGrow(d, e.node, o, slot);
    ProposersStarted(cfg, d', slot);
    OriginStep(ParamsOf(cfg, slot), SlotOf(d, slot), SlotOf(d', slot), step, StartedIds(d, slot), StartedIds(d', slot));
  }

  lemma OnceStep(cfg: Config, d: DistState, d': DistState, e: Event)
    requires ValidConfig(cfg) && OnceInv(cfg, d) && Next(cfg, d, d', e)
    ensures OnceInv(cfg, d')
  {
    hide SystemInv, OnceOk, SlotOrigin, React;
    EventInv(cfg, d, d', e);
    ReactOnce(cfg, d, e);
    forall slot: nat | slot >= 1
      ensures SlotOrigin(cfg, d', slot)
    {
      OriginStays(cfg, d, e, slot);
    }
  }

  lemma {:induction false} RunOnce(cfg: Config, states: seq<DistState>, events: seq<Event>, k: nat)
    requires ValidConfig(cfg) && Run(cfg, states, events) && k < |states|
    ensures OnceInv(cfg, states[k])
  {
    hide OnceInv, Next;
    if k == 0 {
      StartOnce(cfg, states[0]);
    } else {
      RunOnce(cfg, states, events, k - 1);
      OnceStep(cfg, states[k - 1], states[k], events[k - 1]);
    }
  }

  ghost predicate NoneShared(vs: seq<PropValue>, ws: seq<PropValue>) {
    forall a, b :: 0 <= a < |vs| && 0 <= b < |ws| ==> vs[a].id != ws[b].id
  }

  /** No id was committed twice, at one node or at two. */
  ghost predicate CommittedOnce(d: DistState) {
    (forall i :: 0 <= i < |d.nodes| ==> DistinctIds(d.nodes[i].committed)) &&
    (forall i, j :: 0 <= i < j < |d.nodes| ==> NoneShared(d.nodes[i].committed, d.nodes[j].committed))
  }

  /** A value chosen in a slot was started there by a node that committed it. */
  lemma ChosenWasStarted(cfg: Config, d: DistState, slot: nat, v: PropValue) returns (i: nat, a: nat)
    requires ValidConfig(cfg) && OnceInv(cfg, d) && slot >= 1 && ChosenIn(cfg, d.net, slot, v)
    ensures i < |d.nodes| && 1 <= slot <= |d.nodes[i].proposals| && d.nodes[i].proposals[slot - 1].value.id == v.id
    ensures a < |d.nodes[i].committed| && d.nodes[i].committed[a].id == v.id
  {
    hide SystemInv, OnceOk;
    ChosenStays(cfg, d.net, SlotOf(d, slot).net, slot, v);
    var b: nat :| Synod.ChosenAt(ParamsOf(cfg, slot), SlotOf(d, slot).net, b, v);
    assert SlotOrigin(cfg, d, slot);
    assert v.id in StartedIds(d, slot);
    i :| 0 <= i < |d.nodes| && 1 <= slot <= |d.nodes[i].proposals| && d.nodes[i].proposals[slot - 1].value.id == v.id;
    a := CommittedAt(cfg, d, i, slot - 1);
  }

  lemma CommittedAt(cfg: Config, d: DistState, i: nat, k: nat) returns (a: nat)
    requires |cfg| > 0 && OnceInv(cfg, d) && i < |d.nodes| && k < |d.nodes[i].proposals|
    ensures a < |d.nodes[i].committed| && d.nodes[i].committed[a] == d.nodes[i].proposals[k].value
  {
    var c := d.nodes[i];
    assert OnceOk(c) && NodeInv(cfg[i], c);
    assert c.proposals[k].value in FirstProposed(c.proposals);
    a :| 0 <= a < |FirstProposed(c.proposals)| && FirstProposed(c.proposals)[a] == c.proposals[k].value;
  }

  /** As long as no id is committed twice, an id is chosen in at most one slot. */
  lemma ChosenInOneSlot(cfg: Config, d: DistState, slot: nat, slot': nat, v: PropValue, w: PropValue)
    requires ValidConfig(cfg) && OnceInv(cfg, d) && CommittedOnce(d) && 1 <= slot < slot'
    requires ChosenIn(cfg, d.net, slot, v) && ChosenIn(cfg, d.net, slot', w)
    ensures v.id != w.id
  {
    hide ChosenIn, SystemInv, SlotOrigin, FirstIn, LatestActive, LogAt, DistinctIds;
    var i, a := ChosenWasStarted(cfg, d, slot, v);
    var j, b := ChosenWasStarted(cfg, d, slot', w);
    if v.id == w.id {
      assert i == j;
      var c := d.nodes[i];
      assert OnceOk(c) && DistinctIds(c.committed);
      assert LostAt(c, slot - 1);
      LogIsChosen(cfg, d, i, slot);
      ChosenOnce(cfg, d, slot, v, LogAt(c, slot).value);
    }
  }

  lemma LogIsChosen(cfg: Config, d: DistState, i: nat, slot: nat)
    requires |cfg| > 0 && SystemInv(cfg, d) && i < |d.nodes| && LogAt(d.nodes[i], slot).Some?
    ensures ChosenIn(cfg, d.net, slot, LogAt(d.nodes[i], slot).value)
  {}

  /** At most once: in every run in which no id is committed twice, no id is chosen in two slots. */
  lemma AtMostOnce(cfg: Config, d: DistState, slot: nat, slot': nat, v: PropValue, w: PropValue)
    requires ValidConfig(cfg) && Reachable(cfg, d) && CommittedOnce(d) && slot >= 1 && slot' >= 1
    requires ChosenIn(cfg, d.net, slot, v) && ChosenIn(cfg, d.net, slot', w) && v.id == w.id
    ensures slot == slot'
  {
    hide OnceInv, CommittedOnce, ChosenIn, Next;
    var states, events :| Run(cfg, states, events) && states[|states| - 1] == d;
    RunOnce(cfg, states, events, |states| - 1);
    if slot < slot' {
      ChosenInOneSlot(cfg, d, slot, slot', v, w);
    } else if slot' < slot {
      ChosenInOneSlot(cfg, d, slot', slot, w, v);
    }
  }
}
