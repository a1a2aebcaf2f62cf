/** What every event of the whole system keeps. */
module SystemInvariant {
  import opened Counting
  import opened PaxosTypes
  import opened Acceptors
  import opened Proposers
  import opened CaptainSpec
  import opened CaptainInvariant
  import opened Learning
  import opened Protocol
  import opened SlotRefinement
  import opened ValueOrigin
  import Synod
  import SynodInvariant
  import SynodAgreement

  // ---------------------------------------------------------------- the invariant

  ghost function IssuedValues(d: DistState): set<PropValue> {
    set i, v | 0 <= i < |d.nodes| && v in d.nodes[i].issued :: v
  }

  ghost predicate NodesInv(cfg: Config, d: DistState) {
    |d.nodes| == |cfg| && forall i :: 0 <= i < |cfg| ==> NodeInv(cfg[i], d.nodes[i])
  }

  ghost predicate NetNumbered(d: DistState) {
    forall m :: m in d.net ==> SlotNumbered(m)
  }

  /** Every stored or sent value was created by some node. */
  ghost predicate ValuesOk(d: DistState) {
    (forall i :: 0 <= i < |d.nodes| ==> KnownNode(d.nodes[i], IssuedValues(d))) &&
    (forall m :: m in d.net ==> KnownMsg(m, IssuedValues(d)))
  }

  ghost predicate SlotInv(cfg: Config, d: DistState, slot: nat)
    requires |cfg| > 0
  {
    SynodInvariant.Inv(ParamsOf(cfg, slot), SlotOf(d, slot))
  }

  ghost predicate SlotsInv(cfg: Config, d: DistState)
    requires |cfg| > 0
  {
    forall slot: nat :: slot >= 1 ==> SlotInv(cfg, d, slot)
  }

  /** A write quorum accepted the value in the slot. */
  ghost predicate ChosenIn(cfg: Config, net: set<Message>, slot: nat, v: PropValue)
    requires |cfg| > 0
  {
    Synod.Chosen(ParamsOf(cfg, slot), net, v)
  }

  /** Logs hold chosen values only. */
  ghost predicate LogsLearned(cfg: Config, d: DistState)
    requires |cfg| > 0
  {
    forall i, slot: nat :: 0 <= i < |d.nodes| && LogAt(d.nodes[i], slot).Some? ==>
      ChosenIn(cfg, d.net, slot, LogAt(d.nodes[i], slot).value)
  }

  /** Only chosen values are announced. */
  ghost predicate NewsOk(cfg: Config, net: set<Message>, m: Message)
    requires |cfg| > 0
  {
    match m
    case Decide(_, s, id) => exists v :: ChosenIn(cfg, net, s, v) && v.id == id
    case Teach(_, s, v) => ChosenIn(cfg, net, s, v)
    case _ => true
  }

  ghost predicate NewsLearned(cfg: Config, d: DistState)
    requires |cfg| > 0
  {
    forall m :: m in d.net ==> NewsOk(cfg, d.net, m)
  }

  ghost predicate SystemInv(cfg: Config, d: DistState)
    requires |cfg| > 0
  {
    NodesInv(cfg, d) && NetNumbered(d) && ValuesOk(d) && SlotsInv(cfg, d) && LogsLearned(cfg, d) && NewsLearned(cfg, d)
  }

  // ---------------------------------------------------------------- the start

  lemma ParamsAreValid(cfg: Config, slot: nat)
    requires ValidConfig(cfg)
    ensures Synod.ValidParams(ParamsOf(cfg, slot))
  {
    assert ValidView(cfg, 0, cfg[0]);
  }

  lemma StartSlot(cfg: Config, d: DistState, slot: nat)
    requires ValidConfig(cfg) && Start(cfg, d) && slot >= 1
    ensures Synod.Init(ParamsOf(cfg, slot), SlotOf(d, slot))
  {
    var s := SlotOf(d, slot);
    forall i | 0 <= i < |cfg|
      ensures d.nodes[i] == InitialCaptain(cfg[i]) && ValidView(cfg, i, cfg[i]) && ValidView(cfg, 0, cfg[0])
    {}
    assert s.proposers == map[];
    assert s.started == {};
    assert s.net == {};
  }

  lemma StartInv(cfg: Config, d: DistState)
    requires ValidConfig(cfg) && Start(cfg, d)
    ensures SystemInv(cfg, d)
  {
    forall i | 0 <= i < |cfg|
      ensures NodeInv(cfg[i], d.nodes[i])
    {
      InitialNodeInv(cfg[i]);
    }
    forall slot: nat | slot >= 1
      ensures SlotInv(cfg, d, slot)
    {
      StartSlot(cfg, d, slot);
      ParamsAreValid(cfg, slot);
      SynodInvariant.InitInv(ParamsOf(cfg, slot), SlotOf(d, slot));
    }
  }

  // ---------------------------------------------------------------- nodes, numbers and values

  lemma NodesAreOk(cfg: Config, d: DistState)
    requires NodesInv(cfg, d)
    ensures NodesOk(cfg, d)
  {
    forall i | 0 <= i < |cfg|
      ensures NodeOk(cfg[i], d.nodes[i])
    {
      assert NodeInv(cfg[i], d.nodes[i]);
    }
  }

  lemma ReactInv(cfg: Config, d: DistState, e: Event)
    requires NodesInv(cfg, d) && NetNumbered(d) && Enabled(d, e)
    ensures var c := React(cfg, d, e).state; NodeInv(cfg[e.node], c) && NodeGrows(d.nodes[e.node], c)
  {
    hide HandleMsg, LocalCommit;
    var view, c := cfg[e.node], d.nodes[e.node];
    assert NodeInv(view, c);
    match e
    case Commits(i, data) => LocalCommitInv(view, c, data);
    case Delivers(i, m) => HandleMsgInv(view, c, m);
    case Crashes(i) => SameBooks(view, c, c.(work := false));
  }

  lemma NodesStep(cfg: Config, d: DistState, e: Event)
    requires NodesInv(cfg, d) && NetNumbered(d) && Enabled(d, e)
    ensures NodesInv(cfg, Apply(d, e.node, React(cfg, d, e)))
  {
    hide NodeInv, React;
    ReactInv(cfg, d, e);
  }

  lemma CommitValueNumbers(view: View, c: CaptainState, v: PropValue)
    ensures forall m :: m in CommitValue(view, c, v).sent ==> SlotNumbered(m)
  {}

  lemma OnAcceptedNumbers(view: View, c: CaptainState, slot: nat, m: AcceptAck)
    requires slot >= 1
    ensures forall x :: x in OnAccepted(view, c, slot, m).sent ==> SlotNumbered(x)
  {
    hide AfterAccepted, AddChosen;
  }

  lemma HandleMsgNumbers(view: View, c: CaptainState, m: Message)
    requires SlotNumbered(m)
    ensures forall x :: x in HandleMsg(view, c, m).sent ==> SlotNumbered(x)
  {
    hide AfterPromise, OnAccepted, AddChosen, CommitValue, PrepareNext, AcceptNext;
    match m
    case Accepted(to, slot, ack) => OnAcceptedNumbers(view, c, slot, ack);
    case Commit(node, v) => CommitValueNumbers(view, c, v);
    case _ =>
  }

  lemma NumbersStep(cfg: Config, d: DistState, e: Event)
    requires |d.nodes| == |cfg| && NetNumbered(d) && Enabled(d, e)
    ensures NetNumbered(Apply(d, e.node, React(cfg, d, e)))
  {
    hide HandleMsg, CommitValue, SlotNumbered;
    match e
    case Commits(i, data) => LocalCommitNumbers(cfg[i], d.nodes[i], data);
    case Delivers(i, m) => HandleMsgNumbers(cfg[i], d.nodes[i], m);
    case Crashes(i) =>
  }

  lemma LocalCommitNumbers(view: View, c: CaptainState, data: string)
    ensures forall m :: m in LocalCommit(view, c, data).sent ==> SlotNumbered(m)
  {
    hide CommitValue;
    var id := c.valueId + NODE_SPAN;
    CommitValueNumbers(view, c.(valueId := id, issued := c.issued + [PropValue(id, data)]), PropValue(id, data));
  }

  lemma IssuedGrow(d: DistState, i: nat, o: Outcome)
    requires i < |d.nodes| && d.nodes[i].issued <= o.state.issued
    ensures IssuedValues(d) <= IssuedValues(Apply(d, i, o))
    ensures forall v :: v in o.state.issued ==> v in IssuedValues(Apply(d, i, o))
  {
    var d' := Apply(d, i, o);
    forall v | v in IssuedValues(d)
      ensures v in IssuedValues(d')
    {
      var j :| 0 <= j < |d.nodes| && v in d.nodes[j].issued;
      assert v in d'.nodes[j].issued;
    }
    forall v | v in o.state.issued
      ensures v in IssuedValues(d')
    {
      assert v in d'.nodes[i].issued;
    }
  }

  lemma KnownMsgMore(m: Message, k: set<PropValue>, k': set<PropValue>)
    requires KnownMsg(m, k) && k <= k'
    ensures KnownMsg(m, k')
  {}

  lemma LocalCommitIssues(view: View, c: CaptainState, data: string)
    requires NodeInv(view, c)
    ensures PropValue(c.valueId + NODE_SPAN, data) in LocalCommit(view, c, data).state.issued
  {
    hide CommitValue, QueueOk;
    var id := c.valueId + NODE_SPAN;
    var d := c.(valueId := id, issued := c.issued + [PropValue(id, data)]);
    if view.whoami == view.master {
      SameBooks(view, c, d);
      WindowOfBooks(view, d);
      CommitValueKeeps(view, d, PropValue(id, data));
    }
  }

  lemma ValuesStep(cfg: Config, d: DistState, e: Event)
    requires NodesInv(cfg, d) && NetNumbered(d) && ValuesOk(d) && Enabled(d, e)
    ensures ValuesOk(Apply(d, e.node, React(cfg, d, e)))
  {
    hide NodeInv, HandleMsg, LocalCommit, KnownNode, KnownMsg, IssuedValues, SlotNumbered, LogGrows;
    var i, o := e.node, React(cfg, d, e);
    var d' := Apply(d, i, o);
    ReactInv(cfg, d, e);
    IssuedGrow(d, i, o);
    var k := IssuedValues(d');
    forall j | 0 <= j < |d.nodes|
      ensures KnownNode(d.nodes[j], k)
    {
      KnownMore(d.nodes[j], IssuedValues(d), k);
    }
    forall m | m in d.net
      ensures KnownMsg(m, k)
    {
      KnownMsgMore(m, IssuedValues(d), k);
    }
    match e
    case Commits(_, data) =>
      LocalCommitIssues(cfg[i], d.nodes[i], data);
      LocalCommitKnown(cfg[i], d.nodes[i], data, k);
    case Delivers(_, m) => HandleMsgKnown(cfg[i], d.nodes[i], m, k);
    case Crashes(_) => assert KnownNode(o.state, k) by { StopKnown(d.nodes[i], k); }
  }

  lemma StopKnown(c: CaptainState, k: set<PropValue>)
    requires KnownNode(c, k)
    ensures KnownNode(c.(work := false), k)
  {}

  /** An id belongs to one value: the node in its low bits numbers its values one by one. */
  lemma IdsDetermineValues(cfg: Config, d: DistState, v: PropValue, w: PropValue)
    requires ValidConfig(cfg) && NodesInv(cfg, d)
    requires v in IssuedValues(d) && w in IssuedValues(d) && v.id == w.id
    ensures v == w
  {
    hide LogOk, QueueOk;
    var i :| 0 <= i < |d.nodes| && v in d.nodes[i].issued;
    var j :| 0 <= j < |d.nodes| && w in d.nodes[j].issued;
    assert NodeInv(cfg[i], d.nodes[i]) && NodeInv(cfg[j], d.nodes[j]);
    assert ValidView(cfg, i, cfg[i]) && ValidView(cfg, j, cfg[j]);
    var a :| 0 <= a < |d.nodes[i].issued| && d.nodes[i].issued[a] == v;
    var b :| 0 <= b < |d.nodes[j].issued| && d.nodes[j].issued[b] == w;
    SplitId(a + 1, i, b + 1, j);
  }

  lemma SplitId(a: nat, i: nat, b: nat, j: nat)
    requires i < NODE_SPAN && j < NODE_SPAN && a * NODE_SPAN + i == b * NODE_SPAN + j
    ensures a == b && i == j
  {}

  // ---------------------------------------------------------------- slots

  lemma SlotStep(cfg: Config, d: DistState, e: Event, slot: nat)
    requires ValidConfig(cfg) && NodesInv(cfg, d) && NetNumbered(d) && Enabled(d, e) && slot >= 1
    requires SlotInv(cfg, d, slot)
    ensures SlotInv(cfg, Apply(d, e.node, React(cfg, d, e)), slot)
  {
    hide NodeInv, React, Apply, SynodInvariant.Inv, SlotOf;
    NodesStep(cfg, d, e);
    NodesAreOk(cfg, d);
    NodesAreOk(cfg, Apply(d, e.node, React(cfg, d, e)));
    assert NodeOk(cfg[e.node], React(cfg, d, e).state) by { ApplyNode(d, e.node, React(cfg, d, e)); }
    EventSteps(cfg, d, e, slot);
    var s, s' := SlotOf(d, slot), SlotOf(Apply(d, e.node, React(cfg, d, e)), slot);
    var step :| Synod.Next(ParamsOf(cfg, slot), s, s', step);
    ParamsAreValid(cfg, slot);
    SynodInvariant.NextInv(ParamsOf(cfg, slot), s, s', step);
  }

  lemma ApplyNode(d: DistState, i: nat, o: Outcome)
    requires i < |d.nodes|
    ensures Apply(d, i, o).nodes[i] == o.state && |Apply(d, i, o).nodes| == |d.nodes|
  {}

  // ---------------------------------------------------------------- chosen values

  lemma VotersGrow(c: Synod.Params, net: set<Message>, net': set<Message>, b: nat)
    requires forall m :: m in net && InSlot(m, c.slot) ==> m in net'
    ensures Synod.Voters(c, net, b) <= Synod.Voters(c, net', b)
  {}

  /** What is chosen is settled by the messages of the slot, and stays so as messages are added. */
  lemma ChosenStays(cfg: Config, net: set<Message>, net': set<Message>, slot: nat, v: PropValue)
    requires |cfg| > 0 && ChosenIn(cfg, net, slot, v)
    requires forall m :: m in net && InSlot(m, slot) ==> m in net'
    ensures ChosenIn(cfg, net', slot, v)
  {
    var c := ParamsOf(cfg, slot);
    var b: nat :| Synod.ChosenAt(c, net, b, v);
    VotersGrow(c, net, net', b);
    SubsetSize(Synod.Voters(c, net, b), Synod.Voters(c, net', b));
    assert Synod.ChosenAt(c, net', b, v);
  }

  /** In one slot, all chosen values are the same. */
  lemma ChosenAgree(cfg: Config, d: DistState, slot: nat, v: PropValue, w: PropValue)
    requires ValidConfig(cfg) && slot >= 1 && SlotInv(cfg, d, slot)
    requires ChosenIn(cfg, d.net, slot, v) && ChosenIn(cfg, d.net, slot, w)
    ensures v.id == w.id
  {
    ChosenStays(cfg, d.net, SlotOf(d, slot).net, slot, v);
    ChosenStays(cfg, d.net, SlotOf(d, slot).net, slot, w);
    ParamsAreValid(cfg, slot);
    SynodAgreement.Agreement(ParamsOf(cfg, slot), SlotOf(d, slot), v, w);
  }

  /** No more than all nodes can vote. */
  lemma NothingChosen(cfg: Config, net: set<Message>, slot: nat, v: PropValue)
    requires |cfg| > 0 && cfg[0].qw > |cfg|
    ensures !ChosenIn(cfg, net, slot, v)
  {
    var c := ParamsOf(cfg, slot);
    forall b: nat
      ensures !Synod.ChosenAt(c, net, b, v)
    {
      SubsetSize(Synod.Voters(c, net, b), Interval(0, |cfg|));
    }
  }

  lemma ChosenIsIssued(cfg: Config, d: DistState, slot: nat, v: PropValue)
    requires |cfg| > 0 && ValuesOk(d) && ChosenIn(cfg, d.net, slot, v)
    ensures v in IssuedValues(d)
  {
    hide IssuedValues;
    var c := ParamsOf(cfg, slot);
    var b: nat :| Synod.ChosenAt(c, d.net, b, v);
    assert KnownMsg(Accept(Owner(b), slot, b, v), IssuedValues(d));
  }

  lemma ChoiceIsChosen(cfg: Config, d: DistState, i: nat, slot: nat, ack: AcceptAck, v: PropValue)
    requires ValidConfig(cfg) && |d.nodes| == |cfg| && i < |cfg| && slot >= 1 && SlotInv(cfg, d, slot)
    requires Accepted(i, slot, ack) in d.net && Justified(cfg[i], d.nodes[i], Accepted(i, slot, ack), slot, v)
    ensures ChosenIn(cfg, d.net, slot, v)
  {
    hide SynodInvariant.Inv, AfterAccepted;
    var c, s := ParamsOf(cfg, slot), SlotOf(d, slot);
    assert ValidView(cfg, i, cfg[i]);
    ParamsAreValid(cfg, slot);
    SynodAgreement.ChooseIsChosen(c, s, cfg[i], ack);
    assert ChosenIn(cfg, s.net, slot, v);
    ChosenStays(cfg, s.net, d.net, slot, v);
  }

  /**
   A node learns only values that are chosen: its own choice, a decided id it holds the value of, or
   what it is taught.
   */
  lemma JustifiedIsChosen(cfg: Config, d: DistState, e: Event, slot: nat, v: PropValue)
    requires ValidConfig(cfg) && SystemInv(cfg, d) && e.Delivers? && Enabled(d, e) && slot >= 1
    requires Justified(cfg[e.node], d.nodes[e.node], e.msg, slot, v)
    ensures ChosenIn(cfg, d.net, slot, v)
  {
    hide NodeInv, ChosenIn, IssuedValues, SlotInv, AfterAccepted, LogsLearned;
    assert NewsOk(cfg, d.net, e.msg);
    match e.msg
    case Accepted(to, s, ack) =>
      assert SlotInv(cfg, d, slot);
      ChoiceIsChosen(cfg, d, e.node, slot, ack, v);
    case Decide(_, s, id) =>
      var w :| ChosenIn(cfg, d.net, s, w) && w.id == id;
      ChosenIsIssued(cfg, d, s, w);
      assert KnownNode(d.nodes[e.node], IssuedValues(d));
      assert v in IssuedValues(d);
      IdsDetermineValues(cfg, d, v, w);
    case Teach(_, s, w) =>
  }

  /** What the node learns from the event, and what it announces. */
  ghost predicate ReactLearns(cfg: Config, d: DistState, e: Event)
    requires |d.nodes| == |cfg| && Enabled(d, e)
  {
    var c, o := d.nodes[e.node], React(cfg, d, e);
    if e.Delivers? then LearnsOk(cfg[e.node], c, e.msg, o)
    else o.state.chosenValues == c.chosenValues && forall m :: m in o.sent ==> m.Prepare? || m.Accept? || m.Commit?
  }

  lemma ReactLearnsOk(cfg: Config, d: DistState, e: Event)
    requires NodesInv(cfg, d) && NetNumbered(d) && Enabled(d, e)
    ensures ReactLearns(cfg, d, e)
  {
    hide NodeInv, HandleMsg, CommitValue, LearnsOk, SlotNumbered;
    var view, c := cfg[e.node], d.nodes[e.node];
    match e
    case Commits(i, data) =>
      var id := c.valueId + NODE_SPAN;
      CommitValueSays(view, c.(valueId := id, issued := c.issued + [PropValue(id, data)]), PropValue(id, data));
    case Delivers(i, m) => HandleMsgLearns(view, c, m);
    case Crashes(i) =>
  }

  lemma SlotZeroEmpty(cfg: Config, d: DistState, j: nat)
    requires NodesInv(cfg, d) && j < |d.nodes|
    ensures LogAt(d.nodes[j], 0).None?
  {
    assert NodeInv(cfg[j], d.nodes[j]);
  }

  lemma EntryChosen(cfg: Config, d: DistState, e: Event, j: nat, slot: nat)
    requires ValidConfig(cfg) && SystemInv(cfg, d) && Enabled(d, e) && ReactLearns(cfg, d, e)
    requires j < |d.nodes| && LogAt(Apply(d, e.node, React(cfg, d, e)).nodes[j], slot).Some? && slot >= 1
    ensures var d' := Apply(d, e.node, React(cfg, d, e)); ChosenIn(cfg, d'.net, slot, LogAt(d'.nodes[j], slot).value)
  {
    hide React, ChosenIn, Justified, NodeInv, NetNumbered, ValuesOk, SlotsInv, NewsLearned;
    var o := React(cfg, d, e);
    var d' := Apply(d, e.node, o);
    var v := LogAt(d'.nodes[j], slot).value;
    if LogAt(d.nodes[j], slot) != LogAt(d'.nodes[j], slot) {
      assert EntryOk(cfg[e.node], d.nodes[e.node], e.msg, o.state, slot);
      JustifiedIsChosen(cfg, d, e, slot, v);
    }
    ChosenStays(cfg, d.net, d'.net, slot, v);
  }

  lemma NewsChosen(cfg: Config, d: DistState, e: Event, m: Message)
    requires ValidConfig(cfg) && SystemInv(cfg, d) && Enabled(d, e) && ReactLearns(cfg, d, e)
    requires m in Apply(d, e.node, React(cfg, d, e)).net && SlotNumbered(m)
    ensures NewsOk(cfg, Apply(d, e.node, React(cfg, d, e)).net, m)
  {
    hide React, ChosenIn, Justified, NodeInv, NetNumbered, ValuesOk, SlotsInv, LogsLearned;
    var i, o := e.node, React(cfg, d, e);
    var d' := Apply(d, i, o);
    if m.Decide? {
      var v: PropValue;
      if m in d.net {
        assert NewsOk(cfg, d.net, m);
        v :| ChosenIn(cfg, d.net, m.slot, v) && v.id == m.valueId;
      } else {
        assert AnnouncementOk(cfg[i], d.nodes[i], e.msg, o.state, m);
        v :| Justified(cfg[i], d.nodes[i], e.msg, m.slot, v) && v.id == m.valueId;
        JustifiedIsChosen(cfg, d, e, m.slot, v);
      }
      ChosenStays(cfg, d.net, d'.net, m.slot, v);
    } else if m.Teach? {
      if m in d.net {
        assert NewsOk(cfg, d.net, m);
        ChosenStays(cfg, d.net, d'.net, m.slot, m.value);
      } else {
        assert AnnouncementOk(cfg[i], d.nodes[i], e.msg, o.state, m);
        assert d'.nodes[i] == o.state;
        EntryChosen(cfg, d, e, i, m.slot);
      }
    }
  }

  lemma LogsStep(cfg: Config, d: DistState, e: Event)
    requires ValidConfig(cfg) && SystemInv(cfg, d) && Enabled(d, e)
    ensures LogsLearned(cfg, Apply(d, e.node, React(cfg, d, e)))
    ensures NewsLearned(cfg, Apply(d, e.node, React(cfg, d, e)))
  {
    hide React, ChosenIn, ValuesOk, SlotsInv, LogAt, ReactLearns, NodeInv, Apply, NewsOk, SlotNumbered;
    var d' := Apply(d, e.node, React(cfg, d, e));
    ReactLearnsOk(cfg, d, e);
    NodesStep(cfg, d, e);
    NumbersStep(cfg, d, e);
    forall j, slot: nat | 0 <= j < |d'.nodes| && LogAt(d'.nodes[j], slot).Some?
      ensures ChosenIn(cfg, d'.net, slot, LogAt(d'.nodes[j], slot).value)
    {
      SlotZeroEmpty(cfg, d', j);
      EntryChosen(cfg, d, e, j, slot);
    }
    forall m | m in d'.net
      ensures NewsOk(cfg, d'.net, m)
    {
      NewsChosen(cfg, d, e, m);
    }
  }

  /** Every event keeps the invariant. */
  lemma EventInv(cfg: Config, d: DistState, d': DistState, e: Event)
    requires ValidConfig(cfg) && SystemInv(cfg, d) && Next(cfg, d, d', e)
    ensures SystemInv(cfg, d')
  {
    hide NodesInv, NetNumbered, ValuesOk, LogsLearned, NewsLearned, SlotInv, React, Apply;
    NodesStep(cfg, d, e);
    NumbersStep(cfg, d, e);
    ValuesStep(cfg, d, e);
    LogsStep(cfg, d, e);
    forall slot: nat | slot >= 1
      ensures SlotInv(cfg, d', slot)
    {
      SlotStep(cfg, d, e, slot);
    }
  }

  lemma {:induction false} RunInv(cfg: Config, states: seq<DistState>, events: seq<Event>, k: nat)
    requires ValidConfig(cfg) && Run(cfg, states, events) && k < |states|
    ensures SystemInv(cfg, states[k])
  {
    hide SystemInv, Next;
    if k == 0 {
      StartInv(cfg, states[0]);
    } else {
      RunInv(cfg, states, events, k - 1);
      EventInv(cfg, states[k - 1], states[k], events[k - 1]);
    }
  }

  lemma ReachableInv(cfg: Config, d: DistState)
    requires ValidConfig(cfg) && Reachable(cfg, d)
    ensures SystemInv(cfg, d)
  {
    hide SystemInv;
    var states, events :| Run(cfg, states, events) && states[|states| - 1] == d;
    RunInv(cfg, states, events, |states| - 1);
  }
}
