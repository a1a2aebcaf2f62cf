/** What follows for one slot: agreement, and in RS mode enough shares of a chosen value. */
module SynodAgreement {
  import opened Counting
  import opened PaxosTypes
  import opened Acceptors
  import opened Proposers
  import opened Synod
  import opened SynodInvariant

  lemma VoteHappened(c: Params, s: SlotState, b: nat, v: PropValue)
    requires Inv(c, s) && ProposedIn(c, s.net, b, v)
    ensures b >= NODE_SPAN && Owner(b) in c.starters
  {
    hide SafeAt, AcceptorsOk, PromisesOk, VotesOk;
    assert RequestOk(c, s, Owner(b), b);
  }

  /** Two sets of nodes that are together larger than the number of nodes share one. */
  lemma QuorumsMeet(a: set<nat>, b: set<nat>, n: nat)
    requires forall i :: i in a || i in b ==> i < n
    requires |a| + |b| > n
    ensures exists i :: i in a && i in b
  {
    if a * b == {} {
      SubsetSize(a + b, Interval(0, n));
    } else {
      var i :| i in a * b;
      assert i in a && i in b;
    }
  }

  lemma ChosenBelow(c: Params, s: SlotState, b: nat, v: PropValue, b': nat, v': PropValue)
    requires ValidParams(c) && Inv(c, s) && b < b'
    requires ChosenAt(c, s.net, b, v) && ProposedIn(c, s.net, b', v')
    ensures v.id == v'.id
  {
    hide RequestsOk, AcceptorsOk, PromisesOk, VotesOk, ProposersOk;
    VoteHappened(c, s, b, v);
    assert SafeAt(c, s, v'.id, b') && SafeBelowAt(c, s, v'.id, b);
    if |Closed(c, s, b)| >= c.qr {
      QuorumsMeet(Voters(c, s.net, b), Closed(c, s, b), c.nodes);
      assert false;
    }
  }

  /** Agreement of one slot: whatever two write quorums accept carries one id. */
  lemma Agreement(c: Params, s: SlotState, v: PropValue, w: PropValue)
    requires ValidParams(c) && Inv(c, s) && Chosen(c, s.net, v) && Chosen(c, s.net, w)
    ensures v.id == w.id
  {
    hide Inv;
    var b: nat :| ChosenAt(c, s.net, b, v);
    var b': nat :| ChosenAt(c, s.net, b', w);
    if b < b' {
      ChosenBelow(c, s, b, v, b', w);
    } else if b' < b {
      ChosenBelow(c, s, b', w, b, v);
    } else {
      assert OneValuePerBallot(c, s.net) by { InvParts(c, s); }
    }
  }

  lemma InvParts(c: Params, s: SlotState)
    requires Inv(c, s)
    ensures OneValuePerBallot(c, s.net) && AllSafe(c, s) && ProposersOk(c, s)
  {}

  /** A proposer that answers CHOOSE holds a value accepted by a write quorum. */
  lemma ChooseIsChosen(c: Params, s: SlotState, view: View, m: AcceptAck)
    requires ValidParams(c) && Inv(c, s) && ViewOf(c, view) && view.whoami in s.proposers
    requires Accepted(view.whoami, c.slot, m) in s.net
    requires AfterAccepted(view, s.proposers[view.whoami], m).1 == CHOOSE
    ensures var p := s.proposers[view.whoami]; p.currValue.Some? && ChosenAt(c, s.net, p.currBallot, p.currValue.value)
  {
    hide SafeAt, AcceptorsOk, PromisesOk, Reported;
    var n := view.whoami;
    var p := s.proposers[n];
    assert ProposerOk(c, s.net, n, p);
    AnswersCurrentBallot(c, s, n);
    var acks := p.ackAccept[m.node := m];
    assert Votes(acks) <= Voters(c, s.net, p.currBallot);
    SubsetSize(Votes(acks), Voters(c, s.net, p.currBallot));
  }

  // ---------------------------------------------------------------- RS mode

  /** A promise above the chosen ballot, given by an acceptor that voted there, carries the chosen id. */
  lemma VoterReportsChosen(c: Params, s: SlotState, n: nat, p: ProposerState, b: nat, v: PropValue, i: nat)
    requires ValidParams(c) && Inv(c, s) && AcksOk(c, s.net, n, p)
    requires ChosenAt(c, s.net, b, v) && b < p.currBallot && VotedIn(c, s.net, i, b)
    requires i in p.ackPrepare && p.ackPrepare[i].reply
    ensures ReportedId(p.ackPrepare[i]) == v.id
  {
    hide SafeAt, AcceptorsOk, ProposersOk, VotesOk, RequestsOk;
    var a := p.ackPrepare[i];
    assert Promise(n, c.slot, a) in s.net;
    assert GrantOk(c, s, a);
    assert b <= a.maxBallot;
    VoteHappened(c, s, b, v);
    var w :| ProposedIn(c, s.net, a.maxBallot, w) && w.id == a.maxValue.value.id;
    if b < a.maxBallot {
      ChosenBelow(c, s, b, v, a.maxBallot, w);
    }
  }

  /**
   Once a value is chosen, a complete promise quorum of any later ballot holds at least
   `qr + qw - nodes` replies with its id: that many shares of the value.
   */
  lemma EnoughShares(c: Params, s: SlotState, n: nat, p: ProposerState, b: nat, v: PropValue)
    requires ValidParams(c) && Inv(c, s) && AcksOk(c, s.net, n, p)
    requires ChosenAt(c, s.net, b, v) && b < p.currBallot && |Granted(p.ackPrepare)| >= c.qr
    ensures |Shares(p.ackPrepare, v.id)| >= c.qr + c.qw - c.nodes
  {
    hide Inv, VotedIn, ReportedId;
    var granted, voters := Granted(p.ackPrepare), Voters(c, s.net, b);
    forall i | i in granted * voters
      ensures i in Shares(p.ackPrepare, v.id)
    {
      VoterReportsChosen(c, s, n, p, b, v, i);
    }
    SubsetSize(granted * voters, Shares(p.ackPrepare, v.id));
    SubsetSize(granted + voters, Interval(0, c.nodes));
    assert |granted + voters| + |granted * voters| == |granted| + |voters|;
  }

  /**
   The second phase is entered only with the id of the highest report, and in RS mode only if all
   but `rsF` nodes sent a share.
   */
  lemma DecodeHasShares(view: View, p: ProposerState, m: PromiseAck)
    requires view.mode.RS?
    ensures var (q, r) := AfterPromise(view, p, m);
      r == CONTINUE && q.maxValue.Some? ==>
        q.currValue == q.maxValue && |Shares(q.ackPrepare, q.maxValue.value.id)| >= view.nodes - view.rsF
  {
    hide Highest, Granted, Shares;
  }
}
