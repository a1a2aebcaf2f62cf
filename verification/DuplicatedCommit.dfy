/** What a request forwarded to the master does when the network delivers it twice. */
module DuplicatedCommit {
  import opened PaxosTypes
  import opened Acceptors
  import opened Proposers
  import opened CaptainSpec
  import opened Protocol
  import opened SystemInvariant
  import opened AtMostOnce
  import opened ForwardedCommits
  import Synod

  const BALLOT: nat := NODE_SPAN
  const VALUE := PropValue(NODE_SPAN + 1, "x")

  /** Two nodes in Multi mode; node 0 is the master. */
  function NodeView(i: nat): View { View(i, 0, 2, 2, 2, Multi, 2, 2, 0) }

  const SYSTEM: Config := [NodeView(0), NodeView(1)]

  lemma OneMaster()
    ensures ValidConfig(SYSTEM)
  {
    assert Masters(SYSTEM) == {0};
  }

  ghost function After(d: DistState, e: Event): DistState
    requires |d.nodes| == 2 && Enabled(d, e)
  {
    Apply(d, e.node, React(SYSTEM, d, e))
  }

  /** The master runs `k` proposers, in the slots 1 to `k`; no acceptor has heard of any. */
  ghost predicate Proposing(d: DistState, k: nat) {
    |d.nodes| == 2 &&
    (forall i :: 0 <= i < 2 ==> d.nodes[i].work && d.nodes[i].acceptors == InitialAcceptors(NodeView(i))) &&
    |d.nodes[0].proposers| == k && (forall s :: s in d.nodes[0].proposers ==> s <= k) &&
    d.nodes[0].maxSlot == k && d.nodes[0].toCommit == []
  }

  lemma Forwarded(d: DistState) returns (d': DistState)
    requires Start(SYSTEM, d)
    ensures Next(SYSTEM, d, d', Commits(1, "x")) && Proposing(d', 0) && Commit(1, VALUE) in d'.net
  {
    d' := After(d, Commits(1, "x"));
    assert React(SYSTEM, d, Commits(1, "x")).sent == [Commit(1, VALUE)];
    assert d'.nodes[0] == InitialCaptain(NodeView(0));
  }

  /** The forwarded value starts a proposer each time it arrives. */
  lemma Arrives(d: DistState, k: nat) returns (d': DistState)
    requires Proposing(d, k) && k < 2 && Commit(1, VALUE) in d.net
    ensures Next(SYSTEM, d, d', Delivers(0, Commit(1, VALUE)))
    ensures Proposing(d', k + 1) && d.net <= d'.net && Accept(0, k + 1, BALLOT, VALUE) in d'.net
  {
    var e := Delivers(0, Commit(1, VALUE));
    d' := After(d, e);
    assert React(SYSTEM, d, e).sent == [Commit(1, VALUE), Accept(0, k + 1, BALLOT, VALUE)];
    assert (k + 1) !in d.nodes[0].proposers;
  }

  /** An acceptor that has promised the first ballot votes at it. */
  lemma VoteCast(d: DistState, i: nat, slot: nat) returns (d': DistState)
    requires |d.nodes| == 2 && i < 2 && 1 <= slot <= 2 && Accept(0, slot, BALLOT, VALUE) in d.net
    requires d.nodes[i].work && AcceptorAt(d.nodes[i], slot).maxProposed <= BALLOT
    ensures Next(SYSTEM, d, d', Delivers(i, Accept(0, slot, BALLOT, VALUE)))
    ensures d.net <= d'.net && Accepted(0, slot, AcceptAck(i, BALLOT, true)) in d'.net && |d'.nodes| == 2
    ensures d'.nodes[1 - i] == d.nodes[1 - i] && d'.nodes[i].work
    ensures forall s: nat :: s != slot ==> AcceptorAt(d'.nodes[i], s) == AcceptorAt(d.nodes[i], s)
  {
    var e := Delivers(i, Accept(0, slot, BALLOT, VALUE));
    d' := After(d, e);
    assert React(SYSTEM, d, e).sent == [Accepted(0, slot, AcceptAck(i, BALLOT, true))];
  }

  lemma BothVoted(net: set<Message>, slot: nat)
    requires Accept(0, slot, BALLOT, VALUE) in net
    requires Accepted(0, slot, AcceptAck(0, BALLOT, true)) in net
    requires Accepted(0, slot, AcceptAck(1, BALLOT, true)) in net
    ensures ChosenIn(SYSTEM, net, slot, VALUE)
  {
    var c := ParamsOf(SYSTEM, slot);
    assert Synod.VotedIn(c, net, 0, BALLOT) && Synod.VotedIn(c, net, 1, BALLOT);
    assert Synod.Voters(c, net, BALLOT) == {0, 1};
    assert Synod.ChosenAt(c, net, BALLOT, VALUE);
  }

  /** One value, forwarded once and delivered twice, is chosen in two slots: at most once fails. */
  lemma ChosenTwice() returns (states: seq<DistState>, events: seq<Event>)
    ensures ValidConfig(SYSTEM) && Run(SYSTEM, states, events)
    ensures ChosenIn(SYSTEM, states[|states| - 1].net, 1, VALUE) && ChosenIn(SYSTEM, states[|states| - 1].net, 2, VALUE)
    ensures !HandledOnce(SYSTEM, events, |events|) && !CommittedOnce(states[|states| - 1])
  {
    hide Next, ChosenIn, ValidConfig, HandledOnce, CommittedOnce;
    OneMaster();
    var d0 := DistState([InitialCaptain(NodeView(0)), InitialCaptain(NodeView(1))], {});
    var d1 := Forwarded(d0);
    var d2 := Arrives(d1, 0);
    var d3 := Arrives(d2, 1);
    var a, b := Accept(0, 1, BALLOT, VALUE), Accept(0, 2, BALLOT, VALUE);
    var d4 := VoteCast(d3, 0, 1);
    var d5 := VoteCast(d4, 1, 1);
    var d6 := VoteCast(d5, 0, 2);
    var d7 := VoteCast(d6, 1, 2);
    BothVoted(d7.net, 1);
    BothVoted(d7.net, 2);
    states := [d0, d1, d2, d3, d4, d5, d6, d7];
    var twice := Delivers(0, Commit(1, VALUE));
    events := [Commits(1, "x"), twice, twice, Delivers(0, a), Delivers(1, a), Delivers(0, b), Delivers(1, b)];
    assert Run(SYSTEM, states, events);
    assert !HandledOnce(SYSTEM, events, 7) by { HandledTwice(events); }
    CommittedOnceIff(SYSTEM, states, events, 7);
  }

  lemma HandledTwice(events: seq<Event>)
    requires |events| >= 3 && events[0].Commits? && events[1] == events[2] == Delivers(0, Commit(1, VALUE))
    ensures !HandledOnce(SYSTEM, events, |events|)
  {
    assert Handled(SYSTEM, events, 1) && Handled(SYSTEM, events, 2);
  }
}
