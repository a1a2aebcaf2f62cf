/**
 One slot on its own: any number of proposers and acceptors around a growing set of sent
 messages. Loss, delay, duplication and reordering are all choices of which message is
 handled next. The network may hand a request to any node, an answer only to its addressee.
 */
module Synod {
  import opened PaxosTypes
  import opened Acceptors
  import opened Proposers

  /**
   What the nodes agree on beforehand. Acceptor `i` starts as if it had promised `presets[i]`;
   `starters` are the nodes that may propose at all.
   */
  datatype Params = Params(nodes: nat, qr: nat, qw: nat, slot: nat, presets: seq<nat>, starters: set<nat>)

  datatype SlotState = SlotState(
    acceptors: seq<AcceptorState>,
    proposers: map<nat, ProposerState>,
    started: set<nat>,
    net: set<Message>)

  ghost predicate ValidParams(c: Params) {
    0 < c.nodes <= NODE_SPAN && c.qr <= c.nodes && c.qr + c.qw > c.nodes &&
    |c.presets| == c.nodes
  }

  /** The view of a node agrees with the parameters. */
  ghost predicate ViewOf(c: Params, view: View) {
    view.nodes == c.nodes && view.qr == c.qr && view.qw == c.qw && view.whoami < c.nodes
  }

  function FirstBallot(node: nat): nat { NODE_SPAN + node }

  ghost predicate Init(c: Params, s: SlotState) {
    |s.acceptors| == c.nodes && s.proposers == map[] && s.started == {} && s.net == {} &&
    |c.presets| == c.nodes &&
    forall i :: 0 <= i < c.nodes ==> s.acceptors[i] == FRESH_ACCEPTOR.(maxProposed := c.presets[i])
  }

  // ---------------------------------------------------------------- steps

  ghost predicate StartStep(c: Params, s: SlotState, s': SlotState, view: View, v: PropValue) {
    var me := view.whoami;
    var p := Prepared(NewProposer(v), me);
    ViewOf(c, view) && me in c.starters && me !in s.started &&
    s' == SlotState(s.acceptors, s.proposers[me := p], s.started + {me}, s.net + {Prepare(me, c.slot, p.currBallot)})
  }

  /** Every acceptor starts as if it had promised the first ballot of `me`. */
  predicate LeasedTo(c: Params, me: nat) {
    forall b :: b in c.presets ==> b == FirstBallot(me)
  }

  /** The first phase may be skipped by a leaseholder, and by a node nobody competes with. */
  ghost predicate MaySkip(c: Params, me: nat) {
    me in c.starters && (LeasedTo(c, me) || c.starters == {me})
  }

  ghost predicate FastStep(c: Params, s: SlotState, s': SlotState, view: View, v: PropValue) {
    var me := view.whoami;
    var p := Prepared(NewProposer(v), me).(currValue := Some(v));
    ViewOf(c, view) && me !in s.started && MaySkip(c, me) &&
    s' == SlotState(s.acceptors, s.proposers[me := p], s.started + {me}, s.net + {Accept(me, c.slot, p.currBallot, v)})
  }

  ghost predicate PrepareStep(c: Params, s: SlotState, s': SlotState, i: nat, from: nat, ballot: nat) {
    i < |s.acceptors| && Prepare(from, c.slot, ballot) in s.net &&
    s' == s.(acceptors := s.acceptors[i := PrepareNext(s.acceptors[i], ballot)],
             net := s.net + {Promise(from, c.slot, PromiseFor(s.acceptors[i], i, ballot))})
  }

  ghost predicate AcceptStep(c: Params, s: SlotState, s': SlotState, i: nat, from: nat, ballot: nat, v: PropValue) {
    i < |s.acceptors| && Accept(from, c.slot, ballot, v) in s.net &&
    s' == s.(acceptors := s.acceptors[i := AcceptNext(s.acceptors[i], ballot, v)],
             net := s.net + {Accepted(from, c.slot, AcceptAckFor(s.acceptors[i], i, ballot))})
  }

  ghost predicate PromisedStep(c: Params, s: SlotState, s': SlotState, view: View, m: PromiseAck) {
    var me := view.whoami;
    ViewOf(c, view) && me in s.proposers && Promise(me, c.slot, m) in s.net &&
    var (p, r) := AfterPromise(view, s.proposers[me], m);
    if r == CONTINUE && p.currValue.Some? then
      s' == s.(proposers := s.proposers[me := p], net := s.net + {Accept(me, c.slot, p.currBallot, p.currValue.value)})
    else if r == RESTART then
      var q := Restarted(p, me);
      s' == s.(proposers := s.proposers[me := q], net := s.net + {Prepare(me, c.slot, q.currBallot)})
    else
      s' == s.(proposers := s.proposers[me := p])
  }

  ghost predicate VotedStep(c: Params, s: SlotState, s': SlotState, view: View, m: AcceptAck) {
    var me := view.whoami;
    ViewOf(c, view) && me in s.proposers && Accepted(me, c.slot, m) in s.net &&
    var (p, r) := AfterAccepted(view, s.proposers[me], m);
    if r == CHOOSE then
      s' == s.(proposers := s.proposers - {me})
    else if r == RESTART then
      var q := Restarted(p, me);
      s' == s.(proposers := s.proposers[me := q], net := s.net + {Prepare(me, c.slot, q.currBallot)})
    else
      s' == s.(proposers := s.proposers[me := p])
  }

  datatype Step =
    | Stutter
    | Start(view: View, value: PropValue)
    | Fast(view: View, value: PropValue)
    | AnswerPrepare(i: nat, from: nat, ballot: nat)
    | AnswerAccept(i: nat, from: nat, ballot: nat, value: PropValue)
    | Promised(view: View, promise: PromiseAck)
    | Voted(view: View, ack: AcceptAck)

  ghost predicate Next(c: Params, s: SlotState, s': SlotState, step: Step) {
    match step
    case Stutter => s' == s
    case Start(view, v) => StartStep(c, s, s', view, v)
    case Fast(view, v) => FastStep(c, s, s', view, v)
    case AnswerPrepare(i, from, ballot) => PrepareStep(c, s, s', i, from, ballot)
    case AnswerAccept(i, from, ballot, v) => AcceptStep(c, s, s', i, from, ballot, v)
    case Promised(view, m) => PromisedStep(c, s, s', view, m)
    case Voted(view, m) => VotedStep(c, s, s', view, m)
  }

  // ---------------------------------------------------------------- runs of one slot

  ghost predicate SlotRun(c: Params, states: seq<SlotState>, steps: seq<Step>) {
    |states| == |steps| + 1 && Init(c, states[0]) &&
    forall k :: 0 <= k < |steps| ==> Next(c, states[k], states[k + 1], steps[k])
  }

  ghost predicate Reaches(c: Params, s: SlotState) {
    exists states, steps :: SlotRun(c, states, steps) && states[|states| - 1] == s
  }

  lemma ReachesNext(c: Params, s: SlotState, s': SlotState, step: Step)
    requires Reaches(c, s) && Next(c, s, s', step)
    ensures Reaches(c, s')
  {
    hide Next, Init;
    var states, steps :| SlotRun(c, states, steps) && states[|states| - 1] == s;
    var states', steps' := states + [s'], steps + [step];
    assert SlotRun(c, states', steps');
    assert states'[|states'| - 1] == s';
  }

  // ---------------------------------------------------------------- what has happened

  ghost predicate ProposedIn(c: Params, net: set<Message>, ballot: nat, v: PropValue) {
    Accept(Owner(ballot), c.slot, ballot, v) in net
  }

  /** Some value with this id was proposed at the ballot. */
  ghost predicate ProposedId(c: Params, net: set<Message>, ballot: nat, id: nat) {
    exists v :: ProposedIn(c, net, ballot, v) && v.id == id
  }

  /** Acceptor `i` accepted at the ballot. */
  ghost predicate VotedIn(c: Params, net: set<Message>, i: nat, ballot: nat) {
    Accepted(Owner(ballot), c.slot, AcceptAck(i, ballot, true)) in net
  }

  ghost function Voters(c: Params, net: set<Message>, ballot: nat): set<nat> {
    set i: nat | i < c.nodes && VotedIn(c, net, i, ballot)
  }

  /** A write quorum accepted the value that was proposed at the ballot. */
  ghost predicate ChosenAt(c: Params, net: set<Message>, ballot: nat, v: PropValue) {
    ProposedIn(c, net, ballot, v) && |Voters(c, net, ballot)| >= c.qw
  }

  ghost predicate Chosen(c: Params, net: set<Message>, v: PropValue) {
    exists ballot :: ChosenAt(c, net, ballot, v)
  }

  /** The acceptors that did not and never will accept at the ballot. */
  ghost function Closed(c: Params, s: SlotState, ballot: nat): set<nat> {
    set i: nat | i < c.nodes && i < |s.acceptors| && s.acceptors[i].maxProposed > ballot &&
      !VotedIn(c, s.net, i, ballot)
  }

  /** Nobody ever proposes at the ballot. */
  ghost predicate Unused(c: Params, ballot: nat) {
    ballot < NODE_SPAN || Owner(ballot) !in c.starters
  }

  /** At the ballot, nothing but the id can be chosen. */
  ghost predicate SafeBelowAt(c: Params, s: SlotState, id: nat, ballot: nat) {
    Unused(c, ballot) || ProposedId(c, s.net, ballot, id) || |Closed(c, s, ballot)| >= c.qr
  }

  /** No other id was or can be chosen below the ballot. */
  ghost predicate SafeAt(c: Params, s: SlotState, id: nat, ballot: nat) {
    forall b: nat :: 0 < b < ballot ==> SafeBelowAt(c, s, id, b)
  }
}
