/** What every step of one slot keeps. */
module SynodInvariant {
  import opened Counting
  import opened PaxosTypes
  import opened Acceptors
  import opened Proposers
  import opened Synod

  // ---------------------------------------------------------------- the invariant

  /** A report is a ballot and the value proposed there, or nothing at all. */
  ghost predicate Reported(c: Params, net: set<Message>, ballot: nat, v: Option<PropValue>) {
    (v.None? <==> ballot == 0) && (v.Some? ==> ProposedId(c, net, ballot, v.value.id))
  }

  ghost predicate RequestOk(c: Params, s: SlotState, node: nat, ballot: nat) {
    node == Owner(ballot) && NODE_SPAN <= ballot && node in s.started &&
    (node in s.proposers ==> ballot <= s.proposers[node].currBallot)
  }

  ghost predicate RequestsOk(c: Params, s: SlotState) {
    (forall n, b :: Prepare(n, c.slot, b) in s.net ==> RequestOk(c, s, n, b)) &&
    (forall n, b, v :: Accept(n, c.slot, b, v) in s.net ==> RequestOk(c, s, n, b))
  }

  /** A granted promise binds its acceptor and reports the last vote below the ballot. */
  ghost predicate GrantOk(c: Params, s: SlotState, a: PromiseAck) {
    a.node < |s.acceptors| && a.ballot <= s.acceptors[a.node].maxProposed &&
    a.maxBallot < a.ballot && Reported(c, s.net, a.maxBallot, a.maxValue) &&
    forall b :: a.maxBallot < b < a.ballot ==> !VotedIn(c, s.net, a.node, b)
  }

  ghost predicate PromisesOk(c: Params, s: SlotState) {
    forall to, a :: Promise(to, c.slot, a) in s.net ==>
      a.node < c.nodes && Prepare(to, c.slot, a.ballot) in s.net && (a.reply ==> GrantOk(c, s, a))
  }

  ghost predicate VoteOk(c: Params, s: SlotState, to: nat, a: AcceptAck) {
    a.node < c.nodes && a.node < |s.acceptors| && a.node < |c.presets| &&
    (exists v :: Accept(to, c.slot, a.ballot, v) in s.net) &&
    (a.reply ==> a.ballot <= s.acceptors[a.node].maxAccepted && c.presets[a.node] <= a.ballot)
  }

  ghost predicate VotesOk(c: Params, s: SlotState) {
    forall to, a :: Accepted(to, c.slot, a) in s.net ==> VoteOk(c, s, to, a)
  }

  ghost predicate AcceptorOk(c: Params, net: set<Message>, i: nat, a: AcceptorState) {
    a.maxAccepted <= a.maxProposed && Reported(c, net, a.maxAccepted, a.maxValue) &&
    (a.maxAccepted > 0 ==> VotedIn(c, net, i, a.maxAccepted)) &&
    (i < |c.presets| && c.presets[i] <= a.maxProposed)
  }

  ghost predicate AcceptorsOk(c: Params, s: SlotState) {
    |s.acceptors| == c.nodes && forall i :: 0 <= i < c.nodes ==> AcceptorOk(c, s.net, i, s.acceptors[i])
  }

  /** The acks a proposer holds answer its current ballot. */
  ghost predicate AcksOk(c: Params, net: set<Message>, n: nat, p: ProposerState) {
    FiledByNode(p, c.nodes) &&
    (forall i :: i in p.ackPrepare ==>
      p.ackPrepare[i].ballot == p.currBallot && Promise(n, c.slot, p.ackPrepare[i]) in net) &&
    (forall i :: i in p.ackAccept ==>
      p.ackAccept[i].ballot == p.currBallot && Accepted(n, c.slot, p.ackAccept[i]) in net)
  }

  /** The current value is what was proposed at the current ballot; the report is from below it. */
  ghost predicate ProposerOk(c: Params, net: set<Message>, n: nat, p: ProposerState) {
    n == Owner(p.currBallot) && NODE_SPAN <= p.currBallot && AcksOk(c, net, n, p) &&
    (forall v :: Accept(n, c.slot, p.currBallot, v) in net <==> p.currValue == Some(v)) &&
    p.maxBallot < p.currBallot && Reported(c, net, p.maxBallot, p.maxValue)
  }

  ghost predicate ProposersOk(c: Params, s: SlotState) {
    s.proposers.Keys <= s.started <= c.starters && (forall n :: n in s.started ==> n < c.nodes) &&
    forall n :: n in s.proposers ==> ProposerOk(c, s.net, n, s.proposers[n])
  }

  ghost predicate OneValuePerBallot(c: Params, net: set<Message>) {
    forall b, v, w :: ProposedIn(c, net, b, v) && ProposedIn(c, net, b, w) ==> v == w
  }

  /** Every value in the second phase is safe at its ballot. */
  ghost predicate AllSafe(c: Params, s: SlotState) {
    forall b, v :: ProposedIn(c, s.net, b, v) ==> SafeAt(c, s, v.id, b)
  }

  ghost predicate Inv(c: Params, s: SlotState) {
    RequestsOk(c, s) && PromisesOk(c, s) && VotesOk(c, s) && AcceptorsOk(c, s) && ProposersOk(c, s) &&
    OneValuePerBallot(c, s.net) && AllSafe(c, s)
  }

  lemma InitInv(c: Params, s: SlotState)
    requires ValidParams(c) && Init(c, s)
    ensures Inv(c, s)
  {}

  // ---------------------------------------------------------------- what only grows

  /** Acceptors move up, votes are cast only at or above the promised ballot, messages stay. */
  ghost predicate Onward(c: Params, s: SlotState, s': SlotState) {
    |s'.acceptors| == |s.acceptors| && s.net <= s'.net &&
    (forall i :: 0 <= i < |s.acceptors| ==> s.acceptors[i].maxProposed <= s'.acceptors[i].maxProposed) &&
    (forall i :: 0 <= i < |s.acceptors| ==> s.acceptors[i].maxAccepted <= s'.acceptors[i].maxAccepted) &&
    (forall i, b :: 0 <= i < |s.acceptors| && VotedIn(c, s'.net, i, b) && !VotedIn(c, s.net, i, b) ==>
      s.acceptors[i].maxProposed <= b)
  }

  lemma ReportedOnward(c: Params, net: set<Message>, net': set<Message>, ballot: nat, v: Option<PropValue>)
    requires net <= net' && Reported(c, net, ballot, v)
    ensures Reported(c, net', ballot, v)
  {
    if v.Some? {
      ProposedOnward(c, net, net', ballot, v.value.id);
    }
  }

  lemma ProposedOnward(c: Params, net: set<Message>, net': set<Message>, ballot: nat, id: nat)
    requires net <= net' && ProposedId(c, net, ballot, id)
    ensures ProposedId(c, net', ballot, id)
  {
    var v :| ProposedIn(c, net, ballot, v) && v.id == id;
    assert ProposedIn(c, net', ballot, v);
  }

  /** What is closed stays closed, so what is safe stays safe. */
  lemma SafeOnward(c: Params, s: SlotState, s': SlotState, id: nat, ballot: nat)
    requires Onward(c, s, s') && SafeAt(c, s, id, ballot)
    ensures SafeAt(c, s', id, ballot)
  {
    forall b: nat | 0 < b < ballot
      ensures SafeBelowAt(c, s', id, b)
    {
      assert SafeBelowAt(c, s, id, b);
      if ProposedId(c, s.net, b, id) {
        ProposedOnward(c, s.net, s'.net, b, id);
      } else if !Unused(c, b) {
        assert Closed(c, s, b) <= Closed(c, s', b);
        SubsetSize(Closed(c, s, b), Closed(c, s', b));
      }
    }
  }

  lemma GrantOnward(c: Params, s: SlotState, s': SlotState, a: PromiseAck)
    requires Onward(c, s, s') && GrantOk(c, s, a)
    ensures GrantOk(c, s', a)
  {
    ReportedOnward(c, s.net, s'.net, a.maxBallot, a.maxValue);
  }

  lemma AllSafeOnward(c: Params, s: SlotState, s': SlotState)
    requires Onward(c, s, s') && AllSafe(c, s)
    requires forall b, v :: ProposedIn(c, s'.net, b, v) ==> ProposedIn(c, s.net, b, v)
    ensures AllSafe(c, s')
  {
    hide SafeAt;
    forall b, v | ProposedIn(c, s'.net, b, v)
      ensures SafeAt(c, s', v.id, b)
    {
      SafeOnward(c, s, s', v.id, b);
    }
  }

  /** A proposer that is left alone stays in order while others send. */
  lemma ProposerOnward(c: Params, net: set<Message>, net': set<Message>, n: nat, p: ProposerState)
    requires net <= net' && ProposerOk(c, net, n, p)
    requires forall v :: Accept(n, c.slot, p.currBallot, v) in net' ==> Accept(n, c.slot, p.currBallot, v) in net
    ensures ProposerOk(c, net', n, p)
  {
    ReportedOnward(c, net, net', p.maxBallot, p.maxValue);
  }

  // ---------------------------------------------------------------- acceptor steps

  lemma PrepareStepInv(c: Params, s: SlotState, s': SlotState, i: nat, from: nat, ballot: nat)
    requires ValidParams(c) && Inv(c, s) && PrepareStep(c, s, s', i, from, ballot)
    ensures Inv(c, s') && Onward(c, s, s')
  {
    hide SafeAt, ProposedId, AcksOk;
    AllSafeOnward(c, s, s');
    var a := s.acceptors[i];
    assert AcceptorOk(c, s.net, i, a);
    forall to, m | Promise(to, c.slot, m) in s'.net
      ensures m.node < c.nodes && Prepare(to, c.slot, m.ballot) in s'.net && (m.reply ==> GrantOk(c, s', m))
    {
      if Promise(to, c.slot, m) in s.net {
        if m.reply { GrantOnward(c, s, s', m); }
      } else if m.reply {
        ReportedOnward(c, s.net, s'.net, m.maxBallot, m.maxValue);
      }
    }
    forall j | 0 <= j < c.nodes
      ensures AcceptorOk(c, s'.net, j, s'.acceptors[j])
    {
      ReportedOnward(c, s.net, s'.net, s.acceptors[j].maxAccepted, s.acceptors[j].maxValue);
    }
    forall n | n in s'.proposers
      ensures ProposerOk(c, s'.net, n, s'.proposers[n])
    {
      ProposerOnward(c, s.net, s'.net, n, s.proposers[n]);
    }
  }

  lemma AcceptStepInv(c: Params, s: SlotState, s': SlotState, i: nat, from: nat, ballot: nat, v: PropValue)
    requires ValidParams(c) && Inv(c, s) && AcceptStep(c, s, s', i, from, ballot, v)
    ensures Inv(c, s') && Onward(c, s, s')
  {
    hide SafeAt, AcksOk;
    var a, a' := s.acceptors[i], s'.acceptors[i];
    assert AcceptorOk(c, s.net, i, a);
    assert RequestOk(c, s, from, ballot);
    AllSafeOnward(c, s, s');
    forall to, m | Promise(to, c.slot, m) in s'.net
      ensures m.node < c.nodes && Prepare(to, c.slot, m.ballot) in s'.net && (m.reply ==> GrantOk(c, s', m))
    {
      if m.reply { GrantOnward(c, s, s', m); }
    }
    assert ProposedIn(c, s'.net, ballot, v);
    forall j | 0 <= j < c.nodes
      ensures AcceptorOk(c, s'.net, j, s'.acceptors[j])
    {
      ReportedOnward(c, s.net, s'.net, s.acceptors[j].maxAccepted, s.acceptors[j].maxValue);
    }
    forall n | n in s'.proposers
      ensures ProposerOk(c, s'.net, n, s'.proposers[n])
    {
      ProposerOnward(c, s.net, s'.net, n, s.proposers[n]);
    }
  }

  // ---------------------------------------------------------------- the value a proposer may take

  /** The scan ends at the start or at some granted report, and no granted report is above it. */
  lemma {:induction false} HighestCovers(acks: map<nat, PromiseAck>, k: nat, start: Report)
    ensures Highest(acks, k, start).ballot >= start.ballot
    ensures forall i :: i in acks && i < k && acks[i].reply ==> acks[i].maxBallot <= Highest(acks, k, start).ballot
    ensures Highest(acks, k, start) == start ||
      exists i :: i in acks && i < k && acks[i].reply &&
        Highest(acks, k, start) == Report(acks[i].maxBallot, acks[i].maxValue)
  {
    if k > 0 {
      HighestCovers(acks, k - 1, start);
    }
  }

  /** What the proposer respects is the report of an acceptor or an older one, and is below its ballot. */
  ghost predicate BestOk(c: Params, net: set<Message>, p: ProposerState, acks: map<nat, PromiseAck>, best: Report) {
    best.ballot < p.currBallot && Reported(c, net, best.ballot, best.value) &&
    forall i :: i in acks && acks[i].reply ==> acks[i].maxBallot <= best.ballot
  }

  lemma BestReport(c: Params, s: SlotState, n: nat, p: ProposerState)
    requires Inv(c, s) && AcksOk(c, s.net, n, p)
    requires p.maxBallot < p.currBallot && Reported(c, s.net, p.maxBallot, p.maxValue)
    ensures BestOk(c, s.net, p, p.ackPrepare, Highest(p.ackPrepare, c.nodes, Report(p.maxBallot, p.maxValue)))
  {
    hide SafeAt, Reported, ProposersOk, AcceptorsOk, VotesOk;
    HighestCovers(p.ackPrepare, c.nodes, Report(p.maxBallot, p.maxValue));
    forall i | i in p.ackPrepare && p.ackPrepare[i].reply
      ensures GrantOk(c, s, p.ackPrepare[i]) && p.ackPrepare[i].ballot == p.currBallot
    {
      assert Promise(n, c.slot, p.ackPrepare[i]) in s.net;
    }
  }

  /**
   A read quorum has granted the ballot. Below it, nothing can be chosen but the value of the
   highest report: above the report nobody of the quorum ever votes, at the report this id was
   proposed, and below the report the id was already safe. The report may be older than the quorum.
   */
  lemma ReportIsSafe(c: Params, s: SlotState, n: nat, p: ProposerState, best: Report, id: nat)
    requires ValidParams(c) && Inv(c, s) && AcksOk(c, s.net, n, p) && |Granted(p.ackPrepare)| >= c.qr
    requires BestOk(c, s.net, p, p.ackPrepare, best)
    requires best.value.Some? ==> best.value.value.id == id
    ensures SafeAt(c, s, id, p.currBallot)
  {
    forall b: nat | 0 < b < p.currBallot
      ensures SafeBelowAt(c, s, id, b)
    {
      if b > best.ballot {
        GrantedAreClosed(c, s, n, p, b);
        SubsetSize(Granted(p.ackPrepare), Closed(c, s, b));
      } else {
        var v :| ProposedIn(c, s.net, best.ballot, v) && v.id == id;
        assert SafeAt(c, s, id, best.ballot);
      }
    }
  }

  lemma GrantedAreClosed(c: Params, s: SlotState, n: nat, p: ProposerState, b: nat)
    requires ValidParams(c) && Inv(c, s) && AcksOk(c, s.net, n, p) && b < p.currBallot
    requires forall i :: i in p.ackPrepare && p.ackPrepare[i].reply ==> p.ackPrepare[i].maxBallot < b
    ensures Granted(p.ackPrepare) <= Closed(c, s, b)
  {
    hide SafeAt, Reported, ProposersOk, VotesOk;
    forall i | i in Granted(p.ackPrepare)
      ensures i in Closed(c, s, b)
    {
      assert Promise(n, c.slot, p.ackPrepare[i]) in s.net;
      assert GrantOk(c, s, p.ackPrepare[i]);
    }
  }

  // ---------------------------------------------------------------- proposer steps

  /** Node `n` changes its proposer and sends at most one request at its current ballot. */
  ghost predicate ProposerMoves(c: Params, s: SlotState, s': SlotState, n: nat, p': ProposerState) {
    s'.acceptors == s.acceptors && n < c.nodes && n in c.starters &&
    s'.proposers == s.proposers[n := p'] && s'.started == s.started + {n} &&
    (n in s.started ==> n in s.proposers && s.proposers[n].currBallot <= p'.currBallot) &&
    s.net <= s'.net &&
    forall m :: m in s'.net ==> (m in s.net || m == Prepare(n, c.slot, p'.currBallot) ||
      (p'.currValue.Some? && m == Accept(n, c.slot, p'.currBallot, p'.currValue.value)))
  }

  lemma ProposerMovesInv(c: Params, s: SlotState, s': SlotState, n: nat, p': ProposerState)
    requires ValidParams(c) && Inv(c, s) && ProposerMoves(c, s, s', n, p')
    requires ProposerOk(c, s'.net, n, p')
    requires p'.currValue.Some? ==> SafeAt(c, s, p'.currValue.value.id, p'.currBallot)
    ensures Inv(c, s') && Onward(c, s, s')
  {
    hide SafeAt, ProposerOk, PromisesOk, VotesOk, AcceptorsOk, RequestsOk, ProposersOk, AllSafe, OneValuePerBallot,
      ProposerMoves, Onward;
    ProposerMovesOnward(c, s, s', n, p');
    ProposerMovesSafe(c, s, s', n, p');
    ProposerMovesAcks(c, s, s', n, p');
    ProposerMovesAcceptors(c, s, s', n, p');
    ProposerMovesRequests(c, s, s', n, p');
    ProposerMovesProposers(c, s, s', n, p');
  }

  lemma ProposerMovesOnward(c: Params, s: SlotState, s': SlotState, n: nat, p': ProposerState)
    requires ProposerMoves(c, s, s', n, p')
    ensures Onward(c, s, s')
  {}

  lemma ProposerMovesAcks(c: Params, s: SlotState, s': SlotState, n: nat, p': ProposerState)
    requires PromisesOk(c, s) && VotesOk(c, s) && ProposerMoves(c, s, s', n, p') && Onward(c, s, s')
    ensures PromisesOk(c, s') && VotesOk(c, s')
  {
    forall to, m | Promise(to, c.slot, m) in s'.net && m.reply
      ensures GrantOk(c, s', m)
    {
      GrantOnward(c, s, s', m);
    }
    forall to, m | Accepted(to, c.slot, m) in s'.net
      ensures VoteOk(c, s', to, m)
    {
      assert VoteOk(c, s, to, m);
    }
  }

  lemma ProposerMovesAcceptors(c: Params, s: SlotState, s': SlotState, n: nat, p': ProposerState)
    requires AcceptorsOk(c, s) && ProposerMoves(c, s, s', n, p')
    ensures AcceptorsOk(c, s')
  {
    hide ProposedId;
    forall j | 0 <= j < c.nodes
      ensures AcceptorOk(c, s'.net, j, s'.acceptors[j])
    {
      ReportedOnward(c, s.net, s'.net, s.acceptors[j].maxAccepted, s.acceptors[j].maxValue);
    }
  }

  lemma ProposerMovesRequests(c: Params, s: SlotState, s': SlotState, n: nat, p': ProposerState)
    requires RequestsOk(c, s) && ProposersOk(c, s) && ProposerMoves(c, s, s', n, p') && ProposerOk(c, s'.net, n, p')
    ensures RequestsOk(c, s')
  {
    hide AcksOk, Reported;
    forall k, b | Prepare(k, c.slot, b) in s'.net
      ensures RequestOk(c, s', k, b)
    {
      if Prepare(k, c.slot, b) in s.net { assert RequestOk(c, s, k, b); }
    }
    forall k, b, v | Accept(k, c.slot, b, v) in s'.net
      ensures RequestOk(c, s', k, b)
    {
      if Accept(k, c.slot, b, v) in s.net { assert RequestOk(c, s, k, b); }
    }
  }

  lemma ProposerMovesProposers(c: Params, s: SlotState, s': SlotState, n: nat, p': ProposerState)
    requires ProposersOk(c, s) && ProposerMoves(c, s, s', n, p') && ProposerOk(c, s'.net, n, p')
    ensures ProposersOk(c, s')
  {
    hide AcksOk, Reported;
    forall k | k in s'.proposers
      ensures ProposerOk(c, s'.net, k, s'.proposers[k])
    {
      if k != n {
        ProposerOnward(c, s.net, s'.net, k, s.proposers[k]);
      }
    }
  }

  lemma ProposerMovesSafe(c: Params, s: SlotState, s': SlotState, n: nat, p': ProposerState)
    requires ValidParams(c) && Inv(c, s) && ProposerMoves(c, s, s', n, p') && Onward(c, s, s')
    requires ProposerOk(c, s'.net, n, p')
    requires p'.currValue.Some? ==> SafeAt(c, s, p'.currValue.value.id, p'.currBallot)
    ensures AllSafe(c, s') && OneValuePerBallot(c, s'.net)
  {
    hide SafeAt, AcksOk, Reported, AcceptorsOk, VotesOk, PromisesOk, RequestsOk, ProposersOk;
    forall b, v | ProposedIn(c, s'.net, b, v)
      ensures SafeAt(c, s', v.id, b)
    {
      SafeOnward(c, s, s', v.id, b);
    }
    forall b, v, w | ProposedIn(c, s'.net, b, v) && ProposedIn(c, s'.net, b, w)
      ensures v == w
    {
      if b == p'.currBallot {
        assert Accept(n, c.slot, p'.currBallot, v) in s'.net && Accept(n, c.slot, p'.currBallot, w) in s'.net;
      } else {
        assert ProposedIn(c, s.net, b, v) && ProposedIn(c, s.net, b, w);
      }
    }
  }

  /** A node that has not started here has sent nothing here. */
  lemma NothingSent(c: Params, s: SlotState, n: nat)
    requires Inv(c, s) && n !in s.started
    ensures forall b: nat, v :: Accept(n, c.slot, b, v) !in s.net
  {
    hide SafeAt, AcceptorsOk, PromisesOk, VotesOk, ProposersOk;
    forall b: nat, v
      ensures Accept(n, c.slot, b, v) !in s.net
    {
      assert Accept(n, c.slot, b, v) in s.net ==> RequestOk(c, s, n, b);
    }
  }

  lemma StartStepInv(c: Params, s: SlotState, s': SlotState, view: View, v: PropValue)
    requires ValidParams(c) && Inv(c, s) && StartStep(c, s, s', view, v)
    ensures Inv(c, s') && Onward(c, s, s')
  {
    hide SafeAt, Inv;
    NothingSent(c, s, view.whoami);
    ProposerMovesInv(c, s, s', view.whoami, Prepared(NewProposer(v), view.whoami));
  }

  /** The first ballot of a node that may skip the first phase: nothing was or can be chosen below. */
  lemma FirstBallotIsSafe(c: Params, s: SlotState, me: nat, id: nat)
    requires ValidParams(c) && Inv(c, s) && MaySkip(c, me) && me < c.nodes
    ensures SafeAt(c, s, id, FirstBallot(me))
  {
    hide Reported, ProposersOk, PromisesOk, AllSafe;
    forall b: nat | 0 < b < FirstBallot(me)
      ensures SafeBelowAt(c, s, id, b)
    {
      if LeasedTo(c, me) {
        var all := Interval(0, c.nodes);
        forall i: nat | i < c.nodes
          ensures i in Closed(c, s, b)
        {
          assert c.presets[i] in c.presets;
          assert AcceptorOk(c, s.net, i, s.acceptors[i]);
        }
        SubsetSize(all, Closed(c, s, b));
      }
    }
  }

  lemma FastStepInv(c: Params, s: SlotState, s': SlotState, view: View, v: PropValue)
    requires ValidParams(c) && Inv(c, s) && FastStep(c, s, s', view, v)
    ensures Inv(c, s') && Onward(c, s, s')
  {
    hide SafeAt, Inv;
    NothingSent(c, s, view.whoami);
    FirstBallotIsSafe(c, s, view.whoami, v.id);
    ProposerMovesInv(c, s, s', view.whoami, Prepared(NewProposer(v), view.whoami).(currValue := Some(v)));
  }

  /** An answer never runs ahead of the ballot it was sent to. */
  lemma AnswersCurrentBallot(c: Params, s: SlotState, n: nat)
    requires Inv(c, s) && n in s.proposers
    ensures forall m :: Promise(n, c.slot, m) in s.net ==> m.ballot <= s.proposers[n].currBallot && m.node < c.nodes
    ensures forall m :: Accepted(n, c.slot, m) in s.net ==> m.ballot <= s.proposers[n].currBallot && m.node < c.nodes
  {
    hide SafeAt, Reported, AcceptorsOk, ProposersOk;
    forall m | Accepted(n, c.slot, m) in s.net
      ensures m.ballot <= s.proposers[n].currBallot && m.node < c.nodes
    {
      assert VoteOk(c, s, n, m);
      var v :| Accept(n, c.slot, m.ballot, v) in s.net;
      assert RequestOk(c, s, n, m.ballot);
    }
    forall m | Promise(n, c.slot, m) in s.net
      ensures m.ballot <= s.proposers[n].currBallot && m.node < c.nodes
    {
      assert RequestOk(c, s, n, m.ballot);
    }
  }

  /** A later ballot of the same node is not in use yet. */
  lemma NextBallotIsNew(c: Params, s: SlotState, n: nat)
    requires Inv(c, s) && n in s.proposers
    ensures forall v, b: nat :: Accept(n, c.slot, b, v) in s.net ==> b <= s.proposers[n].currBallot
  {
    hide SafeAt, Reported, AcceptorsOk, ProposersOk, PromisesOk, VotesOk;
    forall v, b: nat | Accept(n, c.slot, b, v) in s.net
      ensures b <= s.proposers[n].currBallot
    {
      assert RequestOk(c, s, n, b);
    }
  }

  lemma NextBallotOwner(ballot: nat)
    ensures Owner(ballot + NODE_SPAN) == Owner(ballot)
  {}

  /** A restarted proposer has a ballot of its own again, and keeps what was reported to it. */
  lemma RestartedOk(c: Params, s: SlotState, net: set<Message>, n: nat, p: ProposerState)
    requires n == Owner(p.currBallot) && NODE_SPAN <= p.currBallot
    requires forall v, b: nat :: Accept(n, c.slot, b, v) in s.net ==> b <= p.currBallot
    requires net == s.net + {Prepare(n, c.slot, p.currBallot + NODE_SPAN)}
    requires p.maxBallot < p.currBallot && Reported(c, s.net, p.maxBallot, p.maxValue)
    ensures ProposerOk(c, net, n, Restarted(p, n))
  {
    hide Reported, Owner;
    NextBallotOwner(p.currBallot);
    ReportedOnward(c, s.net, net, p.maxBallot, p.maxValue);
  }

  lemma RestartInv(c: Params, s: SlotState, s': SlotState, n: nat, p: ProposerState)
    requires ValidParams(c) && Inv(c, s) && n in s.proposers && p.currBallot == s.proposers[n].currBallot
    requires p.maxBallot < p.currBallot && Reported(c, s.net, p.maxBallot, p.maxValue)
    requires s' == s.(proposers := s.proposers[n := Restarted(p, n)],
      net := s.net + {Prepare(n, c.slot, Restarted(p, n).currBallot)})
    ensures Inv(c, s') && Onward(c, s, s')
  {
    hide *;
    NextBallotIsNew(c, s, n);
    ProposerInOrder(c, s, n);
    assert Restarted(p, n).currBallot == p.currBallot + NODE_SPAN && Restarted(p, n).currValue.None? by {
      RestartedBallot(p, n);
    }
    RestartedOk(c, s, s'.net, n, p);
    ProposerMovesRestart(c, s, s', n, p);
    ProposerMovesInv(c, s, s', n, Restarted(p, n));
  }

  lemma RestartedBallot(p: ProposerState, n: nat)
    requires NODE_SPAN <= p.currBallot
    ensures Restarted(p, n).currBallot == p.currBallot + NODE_SPAN && Restarted(p, n).currValue.None?
  {}

  lemma ProposerMovesRestart(c: Params, s: SlotState, s': SlotState, n: nat, p: ProposerState)
    requires n in s.proposers && n in s.started && n < c.nodes && n in c.starters
    requires NODE_SPAN <= p.currBallot == s.proposers[n].currBallot
    requires s' == s.(proposers := s.proposers[n := Restarted(p, n)],
      net := s.net + {Prepare(n, c.slot, Restarted(p, n).currBallot)})
    ensures ProposerMoves(c, s, s', n, Restarted(p, n))
  {}

  lemma ProposerInOrder(c: Params, s: SlotState, n: nat)
    requires Inv(c, s) && n in s.proposers
    ensures ProposerOk(c, s.net, n, s.proposers[n]) && n in s.started && n < c.nodes && n in c.starters
    ensures n == Owner(s.proposers[n].currBallot) && NODE_SPAN <= s.proposers[n].currBallot
  {}

  /** The acks of a proposer, with one more that answers its current ballot. */
  lemma PromiseFiled(c: Params, s: SlotState, n: nat, m: PromiseAck)
    requires Inv(c, s) && n in s.proposers && Promise(n, c.slot, m) in s.net && m.ballot >= s.proposers[n].currBallot
    ensures var p := s.proposers[n]; AcksOk(c, s.net, n, p.(ackPrepare := p.ackPrepare[m.node := m]))
    ensures ProposerOk(c, s.net, n, s.proposers[n].(ackPrepare := s.proposers[n].ackPrepare[m.node := m]))
  {
    hide SafeAt, AcceptorsOk, PromisesOk, VotesOk, Reported, RequestsOk, OneValuePerBallot, AllSafe;
    AnswersCurrentBallot(c, s, n);
  }

  lemma VoteFiled(c: Params, s: SlotState, n: nat, m: AcceptAck)
    requires Inv(c, s) && n in s.proposers && Accepted(n, c.slot, m) in s.net && m.ballot >= s.proposers[n].currBallot
    ensures ProposerOk(c, s.net, n, s.proposers[n].(ackAccept := s.proposers[n].ackAccept[m.node := m]))
  {
    hide SafeAt, AcceptorsOk, PromisesOk, VotesOk, Reported, RequestsOk, OneValuePerBallot, AllSafe;
    AnswersCurrentBallot(c, s, n);
  }

  /** How the scan of a promise ends, in terms of the best report. */
  lemma PromiseOutcome(view: View, p0: ProposerState, m: PromiseAck)
    ensures var q := p0.(ackPrepare := p0.ackPrepare[m.node := m]);
      var best := Highest(q.ackPrepare, view.nodes, Report(p0.maxBallot, p0.maxValue));
      var (p, r) := AfterPromise(view, p0, m);
      (r == DROP ==> p == p0) &&
      (r != DROP ==> m.ballot >= p0.currBallot && p0.currValue.None?) &&
      (r == NOT_ENOUGH ==> p == q) &&
      (r == RESTART ==> p == q.(maxBallot := best.ballot, maxValue := best.value)) &&
      (r == CONTINUE ==> |Granted(q.ackPrepare)| >= view.qr && p.currValue.Some?) &&
      (r == CONTINUE ==> p == q.(maxBallot := best.ballot, maxValue := best.value, currValue := p.currValue)) &&
      (r == CONTINUE && best.value.Some? ==> best.value == p.currValue) &&
      r != CHOOSE
  {
    hide Highest, Granted, Shares;
  }

  lemma QuietInv(c: Params, s: SlotState, s': SlotState, n: nat, p: ProposerState)
    requires ValidParams(c) && Inv(c, s) && n in s.proposers && s' == s.(proposers := s.proposers[n := p])
    requires ProposerOk(c, s.net, n, p) && p.currBallot == s.proposers[n].currBallot
    ensures Inv(c, s') && Onward(c, s, s')
  {
    hide SafeAt, AcceptorsOk, PromisesOk, VotesOk, Reported, RequestsOk, OneValuePerBallot, AcksOk;
    if p.currValue.Some? {
      assert ProposedIn(c, s.net, p.currBallot, p.currValue.value);
    }
    ProposerMovesInv(c, s, s', n, p);
  }

  lemma ContinueInv(c: Params, s: SlotState, s': SlotState, n: nat, q: ProposerState, best: Report, v: PropValue)
    requires ValidParams(c) && Inv(c, s) && n in s.proposers && ProposerOk(c, s.net, n, q)
    requires q.currBallot == s.proposers[n].currBallot && q.currValue.None? && |Granted(q.ackPrepare)| >= c.qr
    requires BestOk(c, s.net, q, q.ackPrepare, best) && (best.value.Some? ==> best.value == Some(v))
    requires var p := q.(maxBallot := best.ballot, maxValue := best.value, currValue := Some(v));
      s' == s.(proposers := s.proposers[n := p], net := s.net + {Accept(n, c.slot, q.currBallot, v)})
    ensures Inv(c, s') && Onward(c, s, s')
  {
    hide SafeAt, AcceptorsOk, PromisesOk, VotesOk, Reported, RequestsOk, OneValuePerBallot, AllSafe;
    ReportIsSafe(c, s, n, q, best, v.id);
    ReportedOnward(c, s.net, s'.net, best.ballot, best.value);
    ProposerMovesInv(c, s, s', n, q.(maxBallot := best.ballot, maxValue := best.value, currValue := Some(v)));
  }

  lemma PromisedStepInv(c: Params, s: SlotState, s': SlotState, view: View, m: PromiseAck)
    requires ValidParams(c) && Inv(c, s) && PromisedStep(c, s, s', view, m)
    ensures Inv(c, s') && Onward(c, s, s')
  {
    hide Inv, Onward, Reported, Highest, AfterPromise, AcksOk, Granted, Restarted;
    var n := view.whoami;
    var p0 := s.proposers[n];
    var (p, r) := AfterPromise(view, p0, m);
    PromiseOutcome(view, p0, m);
    ProposerInOrder(c, s, n);
    if r == DROP {
      assert s' == s;
      StutterOnward(c, s);
    } else {
      PromiseFiled(c, s, n, m);
      var q := p0.(ackPrepare := p0.ackPrepare[m.node := m]);
      var best := Highest(q.ackPrepare, c.nodes, Report(p0.maxBallot, p0.maxValue));
      BestReport(c, s, n, q);
      if r == CONTINUE {
        ContinueInv(c, s, s', n, q, best, p.currValue.value);
      } else if r == RESTART {
        RestartInv(c, s, s', n, p);
      } else {
        QuietInv(c, s, s', n, q);
      }
    }
  }

  lemma VoteOutcome(view: View, p0: ProposerState, m: AcceptAck)
    ensures var (p, r) := AfterAccepted(view, p0, m);
      (r == DROP ==> p == p0) &&
      (r != DROP ==>
        m.ballot >= p0.currBallot && p0.currValue.Some? && p == p0.(ackAccept := p0.ackAccept[m.node := m])) &&
      r != CONTINUE
  {
    hide Votes;
  }

  lemma VotedStepInv(c: Params, s: SlotState, s': SlotState, view: View, m: AcceptAck)
    requires ValidParams(c) && Inv(c, s) && VotedStep(c, s, s', view, m)
    ensures Inv(c, s') && Onward(c, s, s')
  {
    hide Inv, Onward, Reported, AfterAccepted, AcksOk, Votes, Restarted;
    var n := view.whoami;
    var p0 := s.proposers[n];
    var (p, r) := AfterAccepted(view, p0, m);
    VoteOutcome(view, p0, m);
    ProposerInOrder(c, s, n);
    if r == DROP {
      assert s' == s;
      StutterOnward(c, s);
    } else if r == CHOOSE {
      RemovedInv(c, s, s', n);
    } else {
      VoteFiled(c, s, n, m);
      if r == RESTART {
        RestartInv(c, s, s', n, p);
      } else {
        QuietInv(c, s, s', n, p);
      }
    }
  }

  lemma RemovedInv(c: Params, s: SlotState, s': SlotState, n: nat)
    requires ValidParams(c) && Inv(c, s) && s' == s.(proposers := s.proposers - {n})
    ensures Inv(c, s') && Onward(c, s, s')
  {
    hide SafeAt, Reported, VotedIn;
    AllSafeOnward(c, s, s');
    forall to, m | Promise(to, c.slot, m) in s'.net && m.reply
      ensures GrantOk(c, s', m)
    {
      GrantOnward(c, s, s', m);
    }
  }

  /** Every step of a slot keeps the invariant. */
  lemma NextInv(c: Params, s: SlotState, s': SlotState, step: Step)
    requires ValidParams(c) && Inv(c, s) && Next(c, s, s', step)
    ensures Inv(c, s') && Onward(c, s, s')
  {
    hide Inv, Onward, StartStep, FastStep, PrepareStep, AcceptStep, PromisedStep, VotedStep;
    match step
    case Stutter => assert Onward(c, s, s) by { StutterOnward(c, s); }
    case Start(view, v) => StartStepInv(c, s, s', view, v);
    case Fast(view, v) => FastStepInv(c, s, s', view, v);
    case AnswerPrepare(i, from, ballot) => PrepareStepInv(c, s, s', i, from, ballot);
    case AnswerAccept(i, from, ballot, v) => AcceptStepInv(c, s, s', i, from, ballot, v);
    case Promised(view, m) => PromisedStepInv(c, s, s', view, m);
    case Voted(view, m) => VotedStepInv(c, s, s', view, m);
  }

  lemma StutterOnward(c: Params, s: SlotState)
    ensures Onward(c, s, s)
  {}
}
