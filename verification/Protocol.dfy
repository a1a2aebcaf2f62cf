/** The whole system: nodes around one growing set of messages, in any interleaving. */
module Protocol {
  import opened PaxosTypes
  import opened Acceptors
  import opened Proposers
  import opened CaptainSpec
  import Synod

  /** The views of the nodes 0, 1, 2, ... */
  type Config = seq<View>

  datatype DistState = DistState(nodes: seq<CaptainState>, net: set<Message>)

  /** A client hands in a string, the network delivers a message, or a node stops for good. */
  datatype Event = Commits(node: nat, data: string) | Delivers(node: nat, msg: Message) | Crashes(node: nat)

  /**
   Nodes are numbered by their index and share the quorum sizes and the mode. What each of them
   takes for the master, its window and the length of its lease are its own.
   */
  ghost predicate WellFormed(cfg: Config) {
    0 < |cfg| <= NODE_SPAN && cfg[0].qr <= |cfg| && cfg[0].qr + cfg[0].qw > |cfg| &&
    forall i :: 0 <= i < |cfg| ==> ValidView(cfg, i, cfg[i])
  }

  /** The nodes that ever propose: those that name themselves and have a window. */
  ghost function Masters(cfg: Config): set<nat> {
    set i: nat | i < |cfg| && cfg[i].master == i && cfg[i].window > 0
  }

  /** Any number of nodes may take themselves for the master, but in Multi mode at most one. */
  ghost predicate ValidConfig(cfg: Config) {
    WellFormed(cfg) && (cfg[0].mode.Multi? ==> |Masters(cfg)| <= 1)
  }

  ghost predicate ValidView(cfg: Config, i: nat, view: View)
    requires |cfg| > 0
  {
    view.whoami == i && view.nodes == |cfg| && view.qr == cfg[0].qr && view.qw == cfg[0].qw &&
    view.mode == cfg[0].mode
  }

  ghost predicate Start(cfg: Config, d: DistState) {
    |d.nodes| == |cfg| && d.net == {} && forall i :: 0 <= i < |cfg| ==> d.nodes[i] == InitialCaptain(cfg[i])
  }

  /** An answer reaches only the node it is for; any other message may reach any node. */
  predicate Reaches(m: Message, node: nat) {
    match m
    case Promise(to, _, _) => to == node
    case Accepted(to, _, _) => to == node
    case _ => true
  }

  ghost predicate Enabled(d: DistState, e: Event) {
    e.node < |d.nodes| && (e.Delivers? ==> e.msg in d.net && Reaches(e.msg, e.node))
  }

  /** What the node does with the event. */
  ghost function React(cfg: Config, d: DistState, e: Event): Outcome
    requires |d.nodes| == |cfg| && Enabled(d, e)
  {
    var c := d.nodes[e.node];
    match e
    case Commits(i, data) => LocalCommit(cfg[i], c, data)
    case Delivers(i, m) => HandleMsg(cfg[i], c, m)
    case Crashes(i) => Outcome(c.(work := false), [])
  }

  ghost function Apply(d: DistState, i: nat, o: Outcome): DistState
    requires i < |d.nodes|
  {
    DistState(d.nodes[i := o.state], d.net + set m | m in o.sent)
  }

  ghost predicate Next(cfg: Config, d: DistState, d': DistState, e: Event) {
    |d.nodes| == |cfg| && Enabled(d, e) && d' == Apply(d, e.node, React(cfg, d, e))
  }

  /** Any finite run: each event is enabled in the state it meets. */
  ghost predicate Run(cfg: Config, states: seq<DistState>, events: seq<Event>) {
    |states| == |events| + 1 && Start(cfg, states[0]) &&
    forall k :: 0 <= k < |events| ==> Next(cfg, states[k], states[k + 1], events[k])
  }

  ghost predicate Reachable(cfg: Config, d: DistState) {
    exists states, events :: Run(cfg, states, events) && states[|states| - 1] == d
  }

  // ---------------------------------------------------------------- one slot of the system

  /** The ballot that the acceptor of a node starts from in the slot. */
  function Preset(view: View, slot: nat): nat {
    if view.mode.Multi? && 1 <= slot <= view.length then NODE_SPAN + view.master else 0
  }

  ghost function ParamsOf(cfg: Config, slot: nat): Synod.Params
    requires |cfg| > 0
  {
    Synod.Params(|cfg|, cfg[0].qr, cfg[0].qw, slot,
      seq(|cfg|, i requires 0 <= i < |cfg| => Preset(cfg[i], slot)), Masters(cfg))
  }

  predicate InSlot(m: Message, slot: nat) {
    match m
    case Prepare(_, s, _) => s == slot
    case Promise(_, s, _) => s == slot
    case Accept(_, s, _, _) => s == slot
    case Accepted(_, s, _) => s == slot
    case _ => false
  }

  ghost function SlotNet(net: set<Message>, slot: nat): set<Message> {
    set m | m in net && InSlot(m, slot)
  }

  ghost function SlotOf(d: DistState, slot: nat): Synod.SlotState {
    Synod.SlotState(
      seq(|d.nodes|, i requires 0 <= i < |d.nodes| => AcceptorAt(d.nodes[i], slot)),
      (map i: nat | i < |d.nodes| && slot in d.nodes[i].proposers :: d.nodes[i].proposers[slot].proposer),
      (set i: nat | i < |d.nodes| && slot <= d.nodes[i].maxSlot),
      SlotNet(d.net, slot))
  }
}
