/** Seen from one slot, whatever a node does is one step of that slot. */
module SlotRefinement {
  import opened PaxosTypes
  import opened Acceptors
  import opened Proposers
  import opened CaptainSpec
  import opened Protocol
  import Synod

  /** Only masters start proposers, each in a slot of its own. */
  ghost predicate NodeOk(view: View, c: CaptainState) {
    (forall s :: s in c.proposers ==> s <= c.maxSlot) &&
    (c.maxSlot > 0 ==> view.master == view.whoami && view.window > 0)
  }

  ghost predicate NodesOk(cfg: Config, d: DistState) {
    |d.nodes| == |cfg| && forall i :: 0 <= i < |cfg| ==> NodeOk(cfg[i], d.nodes[i])
  }

  /** The node looks the same from the slot. */
  ghost predicate SameSlot(c: CaptainState, c': CaptainState, slot: nat) {
    AcceptorAt(c', slot) == AcceptorAt(c, slot) && (slot in c'.proposers <==> slot in c.proposers) &&
    (slot in c.proposers ==> c'.proposers[slot].proposer == c.proposers[slot].proposer) &&
    (slot <= c'.maxSlot <==> slot <= c.maxSlot)
  }

  ghost function SlotMsgs(sent: seq<Message>, slot: nat): set<Message> {
    set m | m in sent && InSlot(m, slot)
  }

  /** The slot after node `i` has moved to `o.state`. */
  lemma SlotAfter(d: DistState, i: nat, o: Outcome, slot: nat)
    requires i < |d.nodes|
    ensures var t, t' := SlotOf(d, slot), SlotOf(Apply(d, i, o), slot);
      t'.acceptors == t.acceptors[i := AcceptorAt(o.state, slot)] &&
      t'.proposers == (if slot in o.state.proposers then t.proposers[i := o.state.proposers[slot].proposer]
        else t.proposers - {i}) &&
      t'.started == (if slot <= o.state.maxSlot then t.started + {i} else t.started - {i}) &&
      t'.net == t.net + SlotMsgs(o.sent, slot)
  {
    hide AcceptorAt, InSlot;
    var t, t' := SlotOf(d, slot), SlotOf(Apply(d, i, o), slot);
    assert t'.acceptors == t.acceptors[i := AcceptorAt(o.state, slot)];
    var ps := if slot in o.state.proposers then t.proposers[i := o.state.proposers[slot].proposer]
      else t.proposers - {i};
    assert t'.proposers == ps;
    assert t'.started == if slot <= o.state.maxSlot then t.started + {i} else t.started - {i};
    assert t'.net == t.net + SlotMsgs(o.sent, slot);
  }

  /** A slot that node `i` did not touch is as it was. */
  lemma SlotUntouched(d: DistState, i: nat, o: Outcome, slot: nat)
    requires i < |d.nodes| && SameSlot(d.nodes[i], o.state, slot) && SlotMsgs(o.sent, slot) == {}
    ensures SlotOf(Apply(d, i, o), slot) == SlotOf(d, slot)
  {
    hide AcceptorAt, InSlot;
    SlotAfter(d, i, o, slot);
    var t, t' := SlotOf(d, slot), SlotOf(Apply(d, i, o), slot);
    assert t'.proposers == t.proposers;
    assert t'.started == t.started;
    assert t'.net == t.net;
  }

  /** The slot, read at node `i`. */
  lemma SlotAt(d: DistState, i: nat, slot: nat)
    requires i < |d.nodes|
    ensures var t := SlotOf(d, slot);
      t.acceptors[i] == AcceptorAt(d.nodes[i], slot) &&
      (i in t.proposers <==> slot in d.nodes[i].proposers) &&
      (i in t.proposers ==> t.proposers[i] == d.nodes[i].proposers[slot].proposer) &&
      (i in t.started <==> slot <= d.nodes[i].maxSlot)
  {}

  // ---------------------------------------------------------------- what a node does to its slots

  /** Nothing happens in the slot. */
  ghost predicate Idle(c: CaptainState, o: Outcome, slot: nat) {
    SameSlot(c, o.state, slot) && SlotMsgs(o.sent, slot) == {}
  }

  /** The node starts a proposer in the slot, in Multi mode possibly past the first phase. */
  ghost predicate StartsAt(view: View, c: CaptainState, o: Outcome, slot: nat, v: PropValue) {
    var p := Prepared(NewProposer(v), view.whoami);
    slot == c.maxSlot + 1 == o.state.maxSlot && slot in o.state.proposers &&
    AcceptorAt(o.state, slot) == AcceptorAt(c, slot) &&
    ((o.state.proposers[slot].proposer == p && SlotMsgs(o.sent, slot) == {Prepare(view.whoami, slot, p.currBallot)}) ||
     (o.state.proposers[slot].proposer == p.(currValue := Some(v)) && view.mode.Multi? &&
      SlotMsgs(o.sent, slot) == {Accept(view.whoami, slot, p.currBallot, v)}))
  }

  ghost predicate IdleOrStarts(view: View, c: CaptainState, o: Outcome, slot: nat) {
    Idle(c, o, slot) || exists v :: StartsAt(view, c, o, slot, v)
  }

  lemma OneMessage(m: Message, slot: nat)
    ensures SlotMsgs([m], slot) == if InSlot(m, slot) then {m} else {}
  {
    hide InSlot;
    assert forall x :: x in [m] <==> x == m;
  }

  lemma MoreMessages(a: seq<Message>, b: seq<Message>, slot: nat)
    ensures SlotMsgs(a + b, slot) == SlotMsgs(a, slot) + SlotMsgs(b, slot)
  {
    hide InSlot;
  }

  /** Two nodes that agree on acceptors, proposers and slots. */
  ghost predicate SameCore(c: CaptainState, d: CaptainState) {
    d.acceptors == c.acceptors && d.proposers == c.proposers && d.maxSlot == c.maxSlot
  }

  lemma StartPrepareSlots(view: View, c: CaptainState, v: PropValue, tryTime: nat, slot: nat)
    requires NodeOk(view, c)
    ensures var o := StartPrepare(view, c, v, tryTime);
      if slot == c.maxSlot + 1 then StartsAt(view, c, o, slot, v) else Idle(c, o, slot)
  {
    OneMessage(StartPrepare(view, c, v, tryTime).sent[0], slot);
  }

  lemma StartFastSlots(view: View, c: CaptainState, v: PropValue, slot: nat)
    requires NodeOk(view, c) && view.mode.Multi?
    ensures var o := StartFast(view, c, v);
      if slot == c.maxSlot + 1 then StartsAt(view, c, o, slot, v) else Idle(c, o, slot)
  {
    OneMessage(StartFast(view, c, v).sent[0], slot);
  }

  lemma StartNewSlots(view: View, c: CaptainState, v: PropValue, slot: nat)
    requires NodeOk(view, c)
    ensures var o := StartNew(view, c, v);
      if slot == c.maxSlot + 1 then StartsAt(view, c, o, slot, v) else Idle(c, o, slot)
  {
    if view.mode.Multi? {
      StartFastSlots(view, c, v, slot);
    } else {
      StartPrepareSlots(view, c, v, 1, slot);
    }
  }

  lemma CommitValueSlots(view: View, c: CaptainState, v: PropValue, slot: nat)
    requires NodeOk(view, c)
    ensures IdleOrStarts(view, c, CommitValue(view, c, v), slot)
  {
    hide StartNew;
    var d := c.(committed := c.committed + [v]);
    if |c.proposers| < view.window {
      var e := if |c.toCommit| > 0 then d.(toCommit := c.toCommit[1..] + [v]) else d;
      var w := if |c.toCommit| > 0 then c.toCommit[0] else v;
      StartNewSlots(view, e, w, slot);
      assert CommitValue(view, c, v) == StartNew(view, e, w);
      if slot == c.maxSlot + 1 {
        assert StartsAt(view, c, StartNew(view, e, w), slot, w);
      }
    }
  }

  lemma LocalCommitSlots(view: View, c: CaptainState, data: string, slot: nat)
    requires NodeOk(view, c)
    ensures IdleOrStarts(view, c, LocalCommit(view, c, data), slot)
  {
    hide CommitValue;
    var id := c.valueId + NODE_SPAN;
    var v := PropValue(id, data);
    var d := c.(valueId := id, issued := c.issued + [v]);
    if view.whoami == view.master {
      CommitValueSlots(view, d, v, slot);
      SameStart(view, c, d, CommitValue(view, d, v), slot);
    } else {
      OneMessage(Commit(view.whoami, v), slot);
    }
  }

  lemma SameStart(view: View, c: CaptainState, d: CaptainState, o: Outcome, slot: nat)
    requires SameCore(c, d) && IdleOrStarts(view, d, o, slot)
    ensures IdleOrStarts(view, c, o, slot)
  {
    if !Idle(d, o, slot) {
      var v :| StartsAt(view, d, o, slot, v);
      assert StartsAt(view, c, o, slot, v);
    }
  }

  lemma OnCommitSlots(view: View, c: CaptainState, from: nat, v: PropValue, slot: nat)
    requires NodeOk(view, c)
    ensures IdleOrStarts(view, c, OnCommit(view, c, from, v), slot)
  {
    hide CommitValue;
    if view.whoami == view.master {
      var o, o' := CommitValue(view, c, v), OnCommit(view, c, from, v);
      CommitValueSlots(view, c, v, slot);
      OneMessage(Commit(from, v), slot);
      MoreMessages([Commit(from, v)], o.sent, slot);
      assert SlotMsgs(o'.sent, slot) == SlotMsgs(o.sent, slot);
      if !Idle(c, o, slot) {
        var w :| StartsAt(view, c, o, slot, w);
        assert StartsAt(view, c, o', slot, w);
      }
    }
  }

  /** Messages about chosen values belong to no slot's agreement. */
  lemma LearningSlots(view: View, c: CaptainState, m: Message, slot: nat)
    requires m.Decide? || m.Learn? || m.Teach?
    ensures Idle(c, HandleMsg(view, c, m), slot)
  {
    hide Filled, Frontier, Due;
    var o := HandleMsg(view, c, m);
    if |o.sent| == 1 {
      assert o.sent == [o.sent[0]];
      OneMessage(o.sent[0], slot);
    }
  }

  /** The proposer of the slot is done: it is gone, and the slot sees no message. */
  ghost predicate Ends(c: CaptainState, o: Outcome, slot: nat) {
    AcceptorAt(o.state, slot) == AcceptorAt(c, slot) && slot !in o.state.proposers &&
    (slot <= o.state.maxSlot <==> slot <= c.maxSlot) && SlotMsgs(o.sent, slot) == {}
  }

  lemma AnnounceSlots(view: View, c: CaptainState, t: nat, info: InfoState, v: PropValue, slot: nat)
    ensures var o := Announce(view, c, t, info, v); SameCore(c, o.state) && SlotMsgs(o.sent, slot) == {}
  {
    hide Filled, Frontier, Due;
    var o := Announce(view, c, t, info, v);
    OneMessage(o.sent[0], slot);
    if |o.sent| == 2 {
      assert o.sent == [o.sent[0]] + [o.sent[1]];
      OneMessage(o.sent[1], slot);
      MoreMessages([o.sent[0]], [o.sent[1]], slot);
    } else {
      assert o.sent == [o.sent[0]];
    }
  }

  lemma ReplaceSlots(view: View, c: CaptainState, t: nat, info: InfoState, v: PropValue, slot: nat)
    requires NodeOk(view, c) && t in c.proposers
    ensures var o := Replace(view, c, t, info, v);
      if slot == t then Ends(c, o, slot) else IdleOrStarts(view, c, o, slot)
  {
    hide StartNew, StartPrepare;
    var d := c.(proposers := c.proposers - {t});
    var o := Replace(view, c, t, info, v);
    assert NodeOk(view, d);
    if v.id == info.proposer.initValue.id {
      if |d.toCommit| > 0 {
        var e := d.(toCommit := d.toCommit[1..]);
        StartNewSlots(view, e, d.toCommit[0], slot);
        if slot == c.maxSlot + 1 { assert StartsAt(view, c, o, slot, d.toCommit[0]); }
      }
    } else {
      StartPrepareSlots(view, d, info.proposer.initValue, info.tryTime + 1, slot);
      if slot == c.maxSlot + 1 { assert StartsAt(view, c, o, slot, info.proposer.initValue); }
    }
  }

  // ---------------------------------------------------------------- every event is a step of every slot

  /** Some step of the slot leads from `d` to the state after the outcome. */
  ghost predicate Steps(cfg: Config, d: DistState, i: nat, o: Outcome, slot: nat)
    requires |cfg| > 0 && i < |d.nodes|
  {
    exists step :: Synod.Next(ParamsOf(cfg, slot), SlotOf(d, slot), SlotOf(Apply(d, i, o), slot), step)
  }

  lemma IdleSteps(cfg: Config, d: DistState, i: nat, o: Outcome, slot: nat)
    requires |cfg| > 0 && i < |d.nodes| && Idle(d.nodes[i], o, slot)
    ensures Steps(cfg, d, i, o, slot)
  {
    hide SameSlot;
    SlotUntouched(d, i, o, slot);
    assert Synod.Next(ParamsOf(cfg, slot), SlotOf(d, slot), SlotOf(Apply(d, i, o), slot), Synod.Stutter);
  }

  /** The only node of a Multi-mode system that proposes has no competitor. */
  lemma MasterMaySkip(cfg: Config, i: nat, slot: nat)
    requires ValidConfig(cfg) && i < |cfg| && cfg[i].mode.Multi? && i in Masters(cfg)
    ensures Synod.MaySkip(ParamsOf(cfg, slot), i)
  {
    assert ValidView(cfg, i, cfg[i]);
    assert Masters(cfg) == {i} + (Masters(cfg) - {i});
    assert Masters(cfg) == {i};
  }

  lemma StartSteps(cfg: Config, d: DistState, i: nat, o: Outcome, slot: nat, v: PropValue)
    requires ValidConfig(cfg) && NodesOk(cfg, d) && i in Masters(cfg)
    requires StartsAt(cfg[i], d.nodes[i], o, slot, v)
    ensures Steps(cfg, d, i, o, slot)
  {
    hide AcceptorAt, SlotOf, SlotMsgs;
    var view, c := cfg[i], ParamsOf(cfg, slot);
    var t, t' := SlotOf(d, slot), SlotOf(Apply(d, i, o), slot);
    assert ValidView(cfg, i, view);
    SlotAfter(d, i, o, slot);
    SlotAt(d, i, slot);
    SlotShape(d, slot);
    assert t'.acceptors == t.acceptors;
    var p := Prepared(NewProposer(v), i);
    if o.state.proposers[slot].proposer == p && SlotMsgs(o.sent, slot) == {Prepare(i, slot, p.currBallot)} {
      assert Synod.Next(c, t, t', Synod.Start(view, v));
    } else {
      MasterMaySkip(cfg, i, slot);
      assert Synod.Next(c, t, t', Synod.Fast(view, v));
    }
  }

  lemma SlotShape(d: DistState, slot: nat)
    ensures |SlotOf(d, slot).acceptors| == |d.nodes|
    ensures forall m :: m in SlotOf(d, slot).net <==> m in d.net && InSlot(m, slot)
  {}

  lemma IdleOrStartsSteps(cfg: Config, d: DistState, i: nat, o: Outcome, slot: nat)
    requires ValidConfig(cfg) && NodesOk(cfg, d) && i < |cfg| && NodeOk(cfg[i], o.state)
    requires IdleOrStarts(cfg[i], d.nodes[i], o, slot)
    ensures Steps(cfg, d, i, o, slot)
  {
    hide Idle;
    if Idle(d.nodes[i], o, slot) {
      IdleSteps(cfg, d, i, o, slot);
    } else {
      var v :| StartsAt(cfg[i], d.nodes[i], o, slot, v);
      assert ValidView(cfg, i, cfg[i]);
      StartSteps(cfg, d, i, o, slot, v);
    }
  }

  lemma PrepareSteps(cfg: Config, d: DistState, i: nat, from: nat, s: nat, ballot: nat, slot: nat)
    requires ValidConfig(cfg) && NodesOk(cfg, d) && i < |cfg| && Prepare(from, s, ballot) in d.net
    ensures Steps(cfg, d, i, OnPrepare(cfg[i], d.nodes[i], from, s, ballot), slot)
  {
    hide SlotOf;
    var c, o := d.nodes[i], OnPrepare(cfg[i], d.nodes[i], from, s, ballot);
    OneMessage(o.sent[0], slot);
    if slot == s {
      var t, t' := SlotOf(d, slot), SlotOf(Apply(d, i, o), slot);
      assert ValidView(cfg, i, cfg[i]);
      SlotAfter(d, i, o, slot);
      SlotAt(d, i, slot);
      SlotShape(d, slot);
      Unmoved(t, i, c, slot, t');
      assert Synod.Next(ParamsOf(cfg, slot), t, t', Synod.AnswerPrepare(i, from, ballot));
    } else {
      IdleSteps(cfg, d, i, o, slot);
    }
  }

  /** Putting back what is there changes nothing. */
  lemma Unmoved(t: Synod.SlotState, i: nat, c: CaptainState, slot: nat, t': Synod.SlotState)
    requires i in t.proposers <==> slot in c.proposers
    requires i in t.proposers ==> t.proposers[i] == c.proposers[slot].proposer
    requires i in t.started <==> slot <= c.maxSlot
    requires t'.proposers == if slot in c.proposers then t.proposers[i := c.proposers[slot].proposer]
      else t.proposers - {i}
    requires t'.started == if slot <= c.maxSlot then t.started + {i} else t.started - {i}
    ensures t'.proposers == t.proposers && t'.started == t.started
  {}

  lemma AcceptSteps(cfg: Config, d: DistState, i: nat, from: nat, s: nat, ballot: nat, v: PropValue, slot: nat)
    requires ValidConfig(cfg) && NodesOk(cfg, d) && i < |cfg| && Accept(from, s, ballot, v) in d.net
    ensures Steps(cfg, d, i, OnAccept(cfg[i], d.nodes[i], from, s, ballot, v), slot)
  {
    hide SlotOf;
    var c, o := d.nodes[i], OnAccept(cfg[i], d.nodes[i], from, s, ballot, v);
    OneMessage(o.sent[0], slot);
    if slot == s {
      var t, t' := SlotOf(d, slot), SlotOf(Apply(d, i, o), slot);
      assert ValidView(cfg, i, cfg[i]);
      SlotAfter(d, i, o, slot);
      SlotAt(d, i, slot);
      SlotShape(d, slot);
      Unmoved(t, i, c, slot, t');
      assert Synod.Next(ParamsOf(cfg, slot), t, t', Synod.AnswerAccept(i, from, ballot, v));
    } else {
      IdleSteps(cfg, d, i, o, slot);
    }
  }

  lemma PromiseSteps(cfg: Config, d: DistState, i: nat, s: nat, m: PromiseAck, slot: nat)
    requires ValidConfig(cfg) && NodesOk(cfg, d) && i < |cfg| && Promise(i, s, m) in d.net
    ensures Steps(cfg, d, i, OnPromise(cfg[i], d.nodes[i], s, m), slot)
  {
    hide SlotOf, AfterPromise, AcceptorAt, SlotMsgs, Restarted;
    var view, c, o := cfg[i], d.nodes[i], OnPromise(cfg[i], d.nodes[i], s, m);
    NoMessage(slot);
    if |o.sent| == 1 {
      OneMessage(o.sent[0], slot);
      assert o.sent == [o.sent[0]];
    }
    if slot == s && s in c.proposers && FirstPhase(c.proposers[s].status) {
      var t, t' := SlotOf(d, slot), SlotOf(Apply(d, i, o), slot);
      assert ValidView(cfg, i, view);
      SlotAfter(d, i, o, slot);
      SlotAt(d, i, slot);
      SlotShape(d, slot);
      SameAcceptors(c, o.state, slot);
      assert t'.acceptors == t.acceptors && t'.started == t.started;
      assert Synod.Next(ParamsOf(cfg, slot), t, t', Synod.Promised(view, m));
    } else {
      SameAcceptors(c, o.state, slot);
      IdleSteps(cfg, d, i, o, slot);
    }
  }

  lemma NoMessage(slot: nat)
    ensures SlotMsgs([], slot) == {}
  {}

  lemma SameAcceptors(c: CaptainState, c': CaptainState, slot: nat)
    requires c'.acceptors == c.acceptors
    ensures AcceptorAt(c', slot) == AcceptorAt(c, slot)
  {}

  lemma AcceptedSteps(cfg: Config, d: DistState, i: nat, s: nat, m: AcceptAck, slot: nat)
    requires ValidConfig(cfg) && NodesOk(cfg, d) && i < |cfg| && Accepted(i, s, m) in d.net
    requires NodeOk(cfg[i], OnAccepted(cfg[i], d.nodes[i], s, m).state)
    ensures Steps(cfg, d, i, OnAccepted(cfg[i], d.nodes[i], s, m), slot)
  {
    hide SlotOf, AfterAccepted, AcceptorAt, SlotMsgs, Restarted, Announce, Replace;
    var view, c, o := cfg[i], d.nodes[i], OnAccepted(cfg[i], d.nodes[i], s, m);
    if s in c.proposers && c.proposers[s].status.PHASEII? {
      var (p, r) := AfterAccepted(view, c.proposers[s].proposer, m);
      if r == CHOOSE && p.currValue.Some? {
        ChooseSteps(cfg, d, i, s, m, slot);
      } else {
        NotChosenSteps(cfg, d, i, s, m, slot);
      }
    } else {
      NoMessage(slot);
      IdleSteps(cfg, d, i, o, slot);
    }
  }

  lemma NotChosenSteps(cfg: Config, d: DistState, i: nat, s: nat, m: AcceptAck, slot: nat)
    requires ValidConfig(cfg) && NodesOk(cfg, d) && i < |cfg| && Accepted(i, s, m) in d.net
    requires s in d.nodes[i].proposers && d.nodes[i].proposers[s].status.PHASEII?
    requires var (p, r) := AfterAccepted(cfg[i], d.nodes[i].proposers[s].proposer, m);
      !(r == CHOOSE && p.currValue.Some?)
    ensures Steps(cfg, d, i, OnAccepted(cfg[i], d.nodes[i], s, m), slot)
  {
    hide SlotOf, AfterAccepted, AcceptorAt, SlotMsgs, Restarted, Announce, Replace;
    var view, c, o := cfg[i], d.nodes[i], OnAccepted(cfg[i], d.nodes[i], s, m);
    NoMessage(slot);
    if |o.sent| == 1 {
      OneMessage(o.sent[0], slot);
      assert o.sent == [o.sent[0]];
    }
    SameAcceptors(c, o.state, slot);
    if slot == s {
      var t, t' := SlotOf(d, slot), SlotOf(Apply(d, i, o), slot);
      assert ValidView(cfg, i, view);
      SlotAfter(d, i, o, slot);
      SlotAt(d, i, slot);
      SlotShape(d, slot);
      assert t'.acceptors == t.acceptors && t'.started == t.started;
      ChooseHasValue(view, c.proposers[s].proposer, m);
      assert Synod.Next(ParamsOf(cfg, slot), t, t', Synod.Voted(view, m));
    } else {
      IdleSteps(cfg, d, i, o, slot);
    }
  }

  lemma ChooseHasValue(view: View, p: ProposerState, m: AcceptAck)
    ensures AfterAccepted(view, p, m).1 == CHOOSE ==> AfterAccepted(view, p, m).0.currValue.Some?
    ensures AfterAccepted(view, p, m).0.initValue == p.initValue && AfterAccepted(view, p, m).0.currValue == p.currValue
  {}

  lemma ChooseSteps(cfg: Config, d: DistState, i: nat, s: nat, m: AcceptAck, slot: nat)
    requires ValidConfig(cfg) && NodesOk(cfg, d) && i < |cfg| && Accepted(i, s, m) in d.net
    requires NodeOk(cfg[i], OnAccepted(cfg[i], d.nodes[i], s, m).state)
    requires s in d.nodes[i].proposers && d.nodes[i].proposers[s].status.PHASEII?
    requires var (p, r) := AfterAccepted(cfg[i], d.nodes[i].proposers[s].proposer, m); r == CHOOSE && p.currValue.Some?
    ensures Steps(cfg, d, i, OnAccepted(cfg[i], d.nodes[i], s, m), slot)
  {
    hide SlotOf, AfterAccepted, AcceptorAt, SlotMsgs, Restarted, Announce, Replace;
    var view, c, o := cfg[i], d.nodes[i], OnAccepted(cfg[i], d.nodes[i], s, m);
    var info := c.proposers[s];
    var (p, r) := AfterAccepted(view, info.proposer, m);
    var e := c.(proposers := c.proposers[s := info.(proposer := p, status := CHOSEN)]);
    var a := Announce(view, e, s, info, p.currValue.value);
    var b := Replace(view, a.state, s, info, p.currValue.value);
    AnnounceSlots(view, e, s, info, p.currValue.value, slot);
    assert NodeOk(view, a.state);
    ReplaceSlots(view, a.state, s, info, p.currValue.value, slot);
    MoreMessages(a.sent, b.sent, slot);
    assert SlotMsgs(o.sent, slot) == SlotMsgs(b.sent, slot);
    SameAcceptors(c, a.state, slot);
    if slot == s {
      var t, t' := SlotOf(d, slot), SlotOf(Apply(d, i, o), slot);
      assert ValidView(cfg, i, view);
      SlotAfter(d, i, o, slot);
      SlotAt(d, i, slot);
      SlotShape(d, slot);
      assert t'.acceptors == t.acceptors && t'.started == t.started;
      assert Synod.Next(ParamsOf(cfg, slot), t, t', Synod.Voted(view, m));
    } else {
      if !Idle(a.state, b, slot) {
        var v :| StartsAt(view, a.state, b, slot, v);
        assert StartsAt(view, c, o, slot, v);
      } else {
        assert Idle(c, o, slot);
      }
      IdleOrStartsSteps(cfg, d, i, o, slot);
    }
  }

  /** Every event is one step of every slot. */
  lemma EventSteps(cfg: Config, d: DistState, e: Event, slot: nat)
    requires ValidConfig(cfg) && NodesOk(cfg, d) && Enabled(d, e)
    requires NodeOk(cfg[e.node], React(cfg, d, e).state)
    ensures Steps(cfg, d, e.node, React(cfg, d, e), slot)
  {
    hide Steps, OnPrepare, OnAccept, OnPromise, OnAccepted, OnDecide, OnLearn, OnTeach, OnCommit, NodeOk, LocalCommit;
    assert NodeOk(cfg[e.node], d.nodes[e.node]);
    var i := e.node;
    var view, c, o := cfg[i], d.nodes[i], React(cfg, d, e);
    NoMessage(slot);
    if e.Crashes? || (e.Delivers? && !c.work) {
      SameAcceptors(c, o.state, slot);
      IdleSteps(cfg, d, i, o, slot);
    } else if e.Commits? {
      LocalCommitSlots(view, c, e.data, slot);
      IdleOrStartsSteps(cfg, d, i, o, slot);
    } else {
      match e.msg
      case Prepare(node, s, ballot) => PrepareSteps(cfg, d, i, node, s, ballot, slot);
      case Promise(to, s, ack) => PromiseSteps(cfg, d, i, s, ack, slot);
      case Accept(node, s, ballot, v) => AcceptSteps(cfg, d, i, node, s, ballot, v, slot);
      case Accepted(to, s, ack) => AcceptedSteps(cfg, d, i, s, ack, slot);
      case Commit(node, v) =>
        OnCommitSlots(view, c, node, v, slot);
        IdleOrStartsSteps(cfg, d, i, o, slot);
      case _ =>
        LearningSlots(view, c, e.msg, slot);
        IdleSteps(cfg, d, i, o, slot);
    }
  }
}
