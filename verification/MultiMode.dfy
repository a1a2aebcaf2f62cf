/** Multi mode is Basic mode with the first phase of the master done beforehand. */
module MultiMode {
  import opened Counting
  import opened PaxosTypes
  import opened Acceptors
  import opened Proposers
  import opened CaptainSpec
  import opened Synod
  import Protocol
  import Replication
  import SynodInvariant

  // ---------------------------------------------------------------- the two halves of the first phase

  /** A preset acceptor is one that has granted the master's first prepare request, and had nothing to report. */
  lemma PresetIsPrepared(view: View, slot: nat)
    requires view.mode.Multi? && 1 <= slot <= view.length
    ensures AcceptorAt(InitialCaptain(view), slot) == PrepareNext(FRESH_ACCEPTOR, FirstBallot(view.master))
    ensures EmptyPromise(PromiseFor(FRESH_ACCEPTOR, view.whoami, FirstBallot(view.master)), FirstBallot(view.master))
  {}

  predicate EmptyPromise(m: PromiseAck, ballot: nat) {
    m.ballot == ballot && m.reply && m.maxBallot == 0 && m.maxValue.None?
  }

  /** The state a proposer skips to. */
  function SkippedTo(v: PropValue, me: nat): ProposerState {
    Prepared(NewProposer(v), me).(currValue := Some(v))
  }

  /** Equal but for the promises, which a proposer in its second phase does not read. */
  predicate SameButAcks(p: ProposerState, q: ProposerState) {
    p.currValue.Some? && q == p.(ackPrepare := q.ackPrepare)
  }

  ghost function HandleAll(view: View, p: ProposerState, ms: seq<PromiseAck>): ProposerState {
    if ms == [] then p else AfterPromise(view, HandleAll(view, p, ms[..|ms| - 1]), ms[|ms| - 1]).0
  }

  ghost function Senders(ms: seq<PromiseAck>): set<nat> {
    set m | m in ms :: m.node
  }

  lemma SendersAdded(ms: seq<PromiseAck>, m: PromiseAck)
    ensures Senders(ms + [m]) == Senders(ms) + {m.node}
  {}

  lemma {:induction false} HighestOfEmpty(acks: map<nat, PromiseAck>, k: nat, ballot: nat)
    requires forall i :: i in acks ==> EmptyPromise(acks[i], ballot)
    ensures Highest(acks, k, Report(0, None)) == Report(0, None)
  {
    if k > 0 {
      HighestOfEmpty(acks, k - 1, ballot);
    }
  }

  /** In the first phase at the first ballot, with nothing but empty promises so far. */
  ghost predicate Waiting(p: ProposerState, v: PropValue, me: nat) {
    p == Prepared(NewProposer(v), me).(ackPrepare := p.ackPrepare) &&
    forall i :: i in p.ackPrepare ==> EmptyPromise(p.ackPrepare[i], FirstBallot(me))
  }

  /** One more empty promise: still waiting, or on to the second phase. */
  lemma TakeEmpty(view: View, v: PropValue, p: ProposerState, m: PromiseAck)
    requires Waiting(p, v, view.whoami) && EmptyPromise(m, FirstBallot(view.whoami))
    ensures var acks := p.ackPrepare[m.node := m]; var (q, r) := AfterPromise(view, p, m);
      if |acks.Keys| < view.qr then q == p.(ackPrepare := acks) && Waiting(q, v, view.whoami) && r == NOT_ENOUGH
      else SameButAcks(SkippedTo(v, view.whoami), q) && r == CONTINUE
  {
    var acks := p.ackPrepare[m.node := m];
    HighestOfEmpty(acks, view.nodes, FirstBallot(view.whoami));
    assert |acks| == |acks.Keys|;
    assert Granted(acks) == acks.Keys;
  }

  /** What empty promises of the `senders` lead to. */
  ghost predicate Reached(view: View, v: PropValue, senders: set<nat>, p: ProposerState) {
    if senders == {} || |senders| < view.qr then Waiting(p, v, view.whoami) && p.ackPrepare.Keys == senders
    else SameButAcks(SkippedTo(v, view.whoami), p)
  }

  lemma OneMoreReached(view: View, v: PropValue, senders: set<nat>, p: ProposerState, m: PromiseAck)
    requires Reached(view, v, senders, p) && EmptyPromise(m, FirstBallot(view.whoami))
    ensures Reached(view, v, senders + {m.node}, AfterPromise(view, p, m).0)
  {
    hide AfterPromise, Waiting, SameButAcks, SkippedTo, AfterAccepted, Restarted;
    if senders == {} || |senders| < view.qr {
      TakeEmpty(view, v, p, m);
      assert p.ackPrepare[m.node := m].Keys == p.ackPrepare.Keys + {m.node};
    } else {
      SubsetSize(senders, senders + {m.node});
      SameFromThere(view, SkippedTo(v, view.whoami), p, m, AcceptAck(0, 0, false));
    }
  }

  /** Empty promises of a quorum, in any order and number, lead to the state Multi mode skips to. */
  lemma {:induction false} EmptyPromisesSuffice(view: View, v: PropValue, ms: seq<PromiseAck>)
    requires forall k :: 0 <= k < |ms| ==> EmptyPromise(ms[k], FirstBallot(view.whoami))
    ensures Reached(view, v, Senders(ms), HandleAll(view, Prepared(NewProposer(v), view.whoami), ms))
  {
    if ms != [] {
      hide AfterPromise, Reached, Senders;
      var before, m := ms[..|ms| - 1], ms[|ms| - 1];
      assert ms == before + [m];
      EmptyPromisesSuffice(view, v, before);
      SendersAdded(before, m);
      OneMoreReached(view, v, Senders(before), HandleAll(view, Prepared(NewProposer(v), view.whoami), before), m);
    }
  }

  /** From there on the promises make no difference. */
  lemma SameFromThere(view: View, p: ProposerState, q: ProposerState, promise: PromiseAck, vote: AcceptAck)
    requires SameButAcks(p, q)
    ensures AfterPromise(view, p, promise) == (p, DROP) && AfterPromise(view, q, promise) == (q, DROP)
    ensures AfterAccepted(view, p, vote).1 == AfterAccepted(view, q, vote).1
    ensures SameButAcks(AfterAccepted(view, p, vote).0, AfterAccepted(view, q, vote).0)
    ensures Restarted(p, view.whoami) == Restarted(q, view.whoami)
  {
    hide Votes;
  }

  // ---------------------------------------------------------------- the lease, brought about

  /** The same slot without the lease: every node starts with the first phase. */
  function Plain(c: Params): Params { c.(presets := seq(c.nodes, i => 0)) }

  predicate NotLeased(c: Params) { c == Plain(c) }

  /** The node `me` has prepared everywhere; if `fast`, it has also gone on to the second phase. */
  ghost predicate Led(c: Params, t: SlotState, me: nat, v: PropValue, fast: bool, p: ProposerState) {
    |t.acceptors| == c.nodes &&
    (forall i :: 0 <= i < c.nodes ==> t.acceptors[i] == PrepareNext(FRESH_ACCEPTOR, FirstBallot(me))) &&
    t.proposers == map[me := p] && t.started == {me} && LedBy(c, t.net, me, v, fast, p)
  }

  ghost predicate LedBy(c: Params, net: set<Message>, me: nat, v: PropValue, fast: bool, p: ProposerState) {
    Prepare(me, c.slot, FirstBallot(me)) in net &&
    if fast then SameButAcks(SkippedTo(v, me), p) && Accept(me, c.slot, FirstBallot(me), v) in net
    else p == Prepared(NewProposer(v), me)
  }

  /** The acceptors below `k` have answered the first prepare request of `me`. */
  ghost predicate Answered(c: Params, t: SlotState, me: nat, v: PropValue, k: nat) {
    |t.acceptors| == c.nodes &&
    (forall i :: 0 <= i < c.nodes ==>
      t.acceptors[i] == if i < k then PrepareNext(FRESH_ACCEPTOR, FirstBallot(me)) else FRESH_ACCEPTOR) &&
    t.proposers == map[me := Prepared(NewProposer(v), me)] && t.started == {me} &&
    Prepare(me, c.slot, FirstBallot(me)) in t.net &&
    forall i: nat :: i < k ==> Promise(me, c.slot, PromiseFor(FRESH_ACCEPTOR, i, FirstBallot(me))) in t.net
  }

  lemma {:induction false} AnswerAll(c: Params, view: View, v: PropValue, k: nat) returns (t: SlotState)
    requires ValidParams(c) && NotLeased(c) && ViewOf(c, view) && view.whoami in c.starters && k <= c.nodes
    ensures Reaches(c, t) && Answered(c, t, view.whoami, v, k)
  {
    var me := view.whoami;
    if k == 0 {
      var s := SlotState(seq(c.nodes, i => FRESH_ACCEPTOR), map[], {}, {});
      assert SlotRun(c, [s], []);
      assert [s][|[s]| - 1] == s;
      var p := Prepared(NewProposer(v), me);
      t := SlotState(s.acceptors, s.proposers[me := p], s.started + {me}, s.net + {Prepare(me, c.slot, p.currBallot)});
      ReachesNext(c, s, t, Step.Start(view, v));
    } else {
      var s := AnswerAll(c, view, v, k - 1);
      var i, ballot := k - 1, FirstBallot(me);
      t := s.(acceptors := s.acceptors[i := PrepareNext(s.acceptors[i], ballot)],
              net := s.net + {Promise(me, c.slot, PromiseFor(s.acceptors[i], i, ballot))});
      ReachesNext(c, s, t, AnswerPrepare(i, me, ballot));
    }
  }

  /** The first `k` promises are filed, too few for a quorum. */
  ghost predicate Filing(c: Params, t: SlotState, me: nat, v: PropValue, k: nat, p: ProposerState) {
    Answered(c, t.(proposers := map[me := Prepared(NewProposer(v), me)]), me, v, c.nodes) &&
    t.proposers == map[me := p] &&
    Waiting(p, v, me) && p.ackPrepare.Keys == Interval(0, k)
  }

  lemma FilingMore(c: Params, t: SlotState, me: nat, v: PropValue, k: nat, p: ProposerState, q: ProposerState)
    requires Filing(c, t, me, v, k, p) && Waiting(q, v, me) && q.ackPrepare.Keys == p.ackPrepare.Keys + {k}
    ensures Filing(c, t.(proposers := t.proposers[me := q]), me, v, k + 1, q)
  {
    hide Waiting;
    assert t.proposers[me := q] == map[me := q];
    assert Interval(0, k + 1) == Interval(0, k) + {k};
  }

  lemma FilingDone(c: Params, t: SlotState, me: nat, v: PropValue, k: nat, p: ProposerState, q: ProposerState)
    requires Filing(c, t, me, v, k, p) && SameButAcks(SkippedTo(v, me), q)
    ensures q.currBallot == FirstBallot(me) && q.currValue == Some(v)
    ensures Led(c, t.(proposers := t.proposers[me := q], net := t.net + {Accept(me, c.slot, FirstBallot(me), v)}), me,
      v, true, q)
  {
    hide Waiting;
    assert t.proposers[me := q] == map[me := q];
  }

  lemma FilingPromise(c: Params, t: SlotState, me: nat, v: PropValue, k: nat, p: ProposerState)
    requires Filing(c, t, me, v, k, p) && k < c.nodes
    ensures Promise(me, c.slot, PromiseFor(FRESH_ACCEPTOR, k, FirstBallot(me))) in t.net
    ensures me in t.proposers && t.proposers[me] == p && Waiting(p, v, me) && |p.ackPrepare.Keys + {k}| == k + 1
  {
    hide Waiting;
    assert k !in p.ackPrepare.Keys;
  }

  lemma DeliverPromise(c: Params, t: SlotState, view: View, m: PromiseAck)
    requires ViewOf(c, view) && view.whoami in t.proposers && Promise(view.whoami, c.slot, m) in t.net
    ensures var (q, r) := AfterPromise(view, t.proposers[view.whoami], m);
      (r == NOT_ENOUGH ==> Next(c, t, t.(proposers := t.proposers[view.whoami := q]), Promised(view, m))) &&
      (r == CONTINUE && q.currValue.Some? ==> Next(c, t, t.(proposers := t.proposers[view.whoami := q],
        net := t.net + {Accept(view.whoami, c.slot, q.currBallot, q.currValue.value)}), Promised(view, m)))
  {
    hide AfterPromise;
  }

  lemma {:induction false} FileAll(c: Params, view: View, v: PropValue, t: SlotState, k: nat, p: ProposerState)
      returns (t': SlotState, p': ProposerState)
    requires ValidParams(c) && NotLeased(c) && ViewOf(c, view)
    requires Reaches(c, t) && Filing(c, t, view.whoami, v, k, p) && k < c.nodes && c.qr <= c.nodes
    ensures Reaches(c, t') && Led(c, t', view.whoami, v, true, p')
    decreases c.nodes - k
  {
    hide AfterPromise, Reaches, Filing, Waiting, Led, Next, SameButAcks, SkippedTo, ValidParams;
    var me := view.whoami;
    var m := PromiseFor(FRESH_ACCEPTOR, k, FirstBallot(me));
    FilingPromise(c, t, me, v, k, p);
    TakeEmpty(view, v, p, m);
    var q := AfterPromise(view, p, m).0;
    assert p.ackPrepare[m.node := m].Keys == p.ackPrepare.Keys + {k};
    if k + 1 < view.qr {
      var u := t.(proposers := t.proposers[me := q]);
      DeliverPromise(c, t, view, m);
      ReachesNext(c, t, u, Promised(view, m));
      FilingMore(c, t, me, v, k, p, q);
      t', p' := FileAll(c, view, v, u, k + 1, q);
    } else {
      FilingDone(c, t, me, v, k, p, q);
      t', p' := t.(proposers := t.proposers[me := q], net := t.net + {Accept(me, c.slot, FirstBallot(me), v)}), q;
      DeliverPromise(c, t, view, m);
      ReachesNext(c, t, t', Promised(view, m));
    }
  }

  /** Without the lease, `me` can bring about what the lease takes for granted. */
  lemma LeaseIsReachable(c: Params, view: View, v: PropValue, fast: bool) returns (t: SlotState, p: ProposerState)
    requires ValidParams(c) && NotLeased(c) && ViewOf(c, view) && view.whoami in c.starters
    ensures Reaches(c, t) && Led(c, t, view.whoami, v, fast, p)
  {
    hide Reaches;
    t := AnswerAll(c, view, v, c.nodes);
    p := Prepared(NewProposer(v), view.whoami);
    if fast {
      t, p := FileAll(c, view, v, t, 0, p);
    }
  }

  // ---------------------------------------------------------------- every run of a leased slot is a run of a plain one

  /** Two proposers that differ at most in promises nobody reads. */
  ghost predicate Alike(p: ProposerState, q: ProposerState) {
    p == q || SameButAcks(p, q)
  }

  ghost predicate AllAlike(ps: map<nat, ProposerState>, qs: map<nat, ProposerState>) {
    ps.Keys == qs.Keys && forall n :: n in ps ==> Alike(ps[n], qs[n])
  }

  ghost predicate Ahead(c: Params, me: nat, v: PropValue, fast: bool, s: SlotState, t: SlotState) {
    me !in s.proposers && me in t.proposers && AllAlike(s.proposers[me := t.proposers[me]], t.proposers) &&
    LedBy(c, t.net, me, v, fast, t.proposers[me])
  }

  /** Until the leaseholder starts, the plain slot is one start ahead; from then on the two look alike. */
  ghost predicate Simulated(c: Params, me: nat, v: PropValue, fast: bool, s: SlotState, t: SlotState) {
    t.acceptors == s.acceptors && s.net <= t.net && t.started == s.started + {me} &&
    (me in s.started ==> AllAlike(s.proposers, t.proposers)) &&
    (me !in s.started ==> Ahead(c, me, v, fast, s, t))
  }

  /** If the step starts the leaseholder, it does so with this value and in this way. */
  ghost predicate StartsAs(step: Step, me: nat, v: PropValue, fast: bool) {
    (step.Start? && step.view.whoami == me ==> step.value == v && !fast) &&
    (step.Fast? && step.view.whoami == me ==> step.value == v && fast)
  }

  /** The plain slot can follow: by the same step, or by doing nothing. */
  ghost predicate Follows(c: Params, me: nat, v: PropValue, fast: bool, s': SlotState, t: SlotState, t': SlotState) {
    Simulated(c, me, v, fast, s', t') && (t' == t || exists step :: Next(Plain(c), t, t', step))
  }

  lemma FollowStart(c: Params, me: nat, v: PropValue, fast: bool, s: SlotState, s': SlotState, t: SlotState, view: View,
      w: PropValue) returns (t': SlotState)
    requires LeasedTo(c, me) && Simulated(c, me, v, fast, s, t)
    requires StartStep(c, s, s', view, w) && StartsAs(Step.Start(view, w), me, v, fast)
    ensures Follows(c, me, v, fast, s', t, t')
  {
    if view.whoami == me {
      t' := t;
    } else {
      var p := Prepared(NewProposer(w), view.whoami);
      t' := SlotState(t.acceptors, t.proposers[view.whoami := p], t.started + {view.whoami},
        t.net + {Prepare(view.whoami, c.slot, p.currBallot)});
      assert Next(Plain(c), t, t', Step.Start(view, w));
    }
  }

  lemma FollowFast(c: Params, me: nat, v: PropValue, fast: bool, s: SlotState, s': SlotState, t: SlotState, view: View,
      w: PropValue) returns (t': SlotState)
    requires LeasedTo(c, me) && |c.presets| > 0 && Simulated(c, me, v, fast, s, t)
    requires FastStep(c, s, s', view, w) && StartsAs(Fast(view, w), me, v, fast)
    ensures Follows(c, me, v, fast, s', t, t')
  {
    if view.whoami == me {
      t' := t;
    } else {
      var p := Prepared(NewProposer(w), view.whoami).(currValue := Some(w));
      t' := SlotState(t.acceptors, t.proposers[view.whoami := p], t.started + {view.whoami},
        t.net + {Accept(view.whoami, c.slot, p.currBallot, w)});
      assert c.presets[0] in c.presets;
      assert Next(Plain(c), t, t', Fast(view, w));
    }
  }

  lemma FollowAcceptor(c: Params, me: nat, v: PropValue, fast: bool, s: SlotState, s': SlotState, t: SlotState,
      step: Step) returns (t': SlotState)
    requires LeasedTo(c, me) && Simulated(c, me, v, fast, s, t)
    requires Next(c, s, s', step) && (step.AnswerPrepare? || step.AnswerAccept?)
    ensures Follows(c, me, v, fast, s', t, t')
  {
    hide PrepareNext, AcceptNext, PromiseFor, AcceptAckFor, AllAlike, SameButAcks;
    var answer := if step.AnswerPrepare?
      then Promise(step.from, c.slot, PromiseFor(s.acceptors[step.i], step.i, step.ballot))
      else Accepted(step.from, c.slot, AcceptAckFor(s.acceptors[step.i], step.i, step.ballot));
    t' := t.(acceptors := s'.acceptors, net := t.net + {answer});
    assert Next(Plain(c), t, t', step);
  }

  /** Both slots change the proposer of `n` alike and send the same. */
  lemma MovedAlike(c: Params, me: nat, v: PropValue, fast: bool, s: SlotState, t: SlotState, n: nat, p: ProposerState,
      q: ProposerState, sent: set<Message>)
    requires Simulated(c, me, v, fast, s, t) && n in s.proposers && Alike(p, q)
    ensures Simulated(c, me, v, fast,
      s.(proposers := s.proposers[n := p], net := s.net + sent),
      t.(proposers := t.proposers[n := q], net := t.net + sent))
  {
    hide SameButAcks;
  }

  lemma RemovedAlike(c: Params, me: nat, v: PropValue, fast: bool, s: SlotState, t: SlotState, n: nat)
    requires Simulated(c, me, v, fast, s, t) && n in s.proposers
    ensures Simulated(c, me, v, fast, s.(proposers := s.proposers - {n}), t.(proposers := t.proposers - {n}))
  {
    hide SameButAcks;
  }

  lemma AlikeAt(c: Params, me: nat, v: PropValue, fast: bool, s: SlotState, t: SlotState, n: nat)
    requires Simulated(c, me, v, fast, s, t) && n in s.proposers
    ensures n in t.proposers && Alike(s.proposers[n], t.proposers[n])
  {}

  lemma FollowPromised(c: Params, me: nat, v: PropValue, fast: bool, s: SlotState, s': SlotState, t: SlotState,
      view: View, m: PromiseAck) returns (t': SlotState)
    requires LeasedTo(c, me) && Simulated(c, me, v, fast, s, t) && PromisedStep(c, s, s', view, m)
    ensures Follows(c, me, v, fast, s', t, t')
  {
    hide AfterPromise, AllAlike, SameButAcks, Restarted, LedBy;
    var n := view.whoami;
    AlikeAt(c, me, v, fast, s, t, n);
    var p, q := s.proposers[n], t.proposers[n];
    if p == q {
      var (p', r) := AfterPromise(view, p, m);
      var sent := if r == CONTINUE && p'.currValue.Some? then {Accept(n, c.slot, p'.currBallot, p'.currValue.value)}
        else if r == RESTART then {Prepare(n, c.slot, Restarted(p', n).currBallot)} else {};
      var u := if r == RESTART && !(r == CONTINUE && p'.currValue.Some?) then Restarted(p', n) else p';
      t' := t.(proposers := t.proposers[n := u], net := t.net + sent);
      MovedAlike(c, me, v, fast, s, t, n, u, u, sent);
      assert s' == s.(proposers := s.proposers[n := u], net := s.net + sent);
      assert Next(Plain(c), t, t', Promised(view, m));
    } else {
      SameFromThere(view, p, q, m, AcceptAck(0, 0, false));
      t' := t;
      assert s'.proposers == s.proposers;
    }
  }

  lemma FollowVoted(c: Params, me: nat, v: PropValue, fast: bool, s: SlotState, s': SlotState, t: SlotState, view: View,
      m: AcceptAck) returns (t': SlotState)
    requires LeasedTo(c, me) && Simulated(c, me, v, fast, s, t) && VotedStep(c, s, s', view, m)
    ensures Follows(c, me, v, fast, s', t, t')
  {
    hide AfterAccepted, AllAlike, SameButAcks, Restarted, LedBy;
    var n := view.whoami;
    AlikeAt(c, me, v, fast, s, t, n);
    var p, q := s.proposers[n], t.proposers[n];
    var (p', r) := AfterAccepted(view, p, m);
    var (q', r') := AfterAccepted(view, q, m);
    if p != q {
      SameFromThere(view, p, q, PromiseAck(0, 0, false, 0, None), m);
      if r == RESTART { SameFromThere(view, p', q', PromiseAck(0, 0, false, 0, None), m); }
    }
    if r == CHOOSE {
      t' := t.(proposers := t.proposers - {n});
      RemovedAlike(c, me, v, fast, s, t, n);
    } else if r == RESTART {
      var u := Restarted(p', n);
      t' := t.(proposers := t.proposers[n := u], net := t.net + {Prepare(n, c.slot, u.currBallot)});
      MovedAlike(c, me, v, fast, s, t, n, u, u, {Prepare(n, c.slot, u.currBallot)});
    } else {
      t' := t.(proposers := t.proposers[n := q']);
      MovedAlike(c, me, v, fast, s, t, n, p', q', {});
      assert t.net + {} == t.net && s.net + {} == s.net;
    }
    assert Next(Plain(c), t, t', Voted(view, m));
  }

  lemma FollowStep(c: Params, me: nat, v: PropValue, fast: bool, s: SlotState, s': SlotState, t: SlotState, step: Step)
      returns (t': SlotState)
    requires LeasedTo(c, me) && |c.presets| > 0 && Simulated(c, me, v, fast, s, t)
    requires Next(c, s, s', step) && StartsAs(step, me, v, fast)
    ensures Follows(c, me, v, fast, s', t, t')
  {
    hide Simulated, StartStep, FastStep, PromisedStep, VotedStep;
    match step
    case Stutter => t' := t;
    case Start(view, w) => t' := FollowStart(c, me, v, fast, s, s', t, view, w);
    case Fast(view, w) => t' := FollowFast(c, me, v, fast, s, s', t, view, w);
    case AnswerPrepare(_, _, _) => t' := FollowAcceptor(c, me, v, fast, s, s', t, step);
    case AnswerAccept(_, _, _, _) => t' := FollowAcceptor(c, me, v, fast, s, s', t, step);
    case Promised(view, m) => t' := FollowPromised(c, me, v, fast, s, s', t, view, m);
    case Voted(view, m) => t' := FollowVoted(c, me, v, fast, s, s', t, view, m);
  }

  lemma FollowInit(c: Params, me: nat, v: PropValue, fast: bool, s: SlotState) returns (t: SlotState)
    requires ValidParams(c) && LeasedTo(c, me) && me < c.nodes && me in c.starters && Init(c, s)
    ensures Reaches(Plain(c), t) && Simulated(c, me, v, fast, s, t)
  {
    hide Reaches;
    var view := View(me, me, c.nodes, c.qr, c.qw, Basic, 0, 0, 0);
    var p;
    t, p := LeaseIsReachable(Plain(c), view, v, fast);
    forall i | 0 <= i < c.nodes
      ensures t.acceptors[i] == s.acceptors[i]
    {
      assert c.presets[i] in c.presets;
    }
    assert t.acceptors == s.acceptors;
    assert s.proposers[me := p] == map[me := p];
  }

  lemma {:induction false} FollowRun(c: Params, me: nat, v: PropValue, fast: bool, states: seq<SlotState>,
      steps: seq<Step>, k: nat) returns (t: SlotState)
    requires ValidParams(c) && LeasedTo(c, me) && me < c.nodes && me in c.starters && SlotRun(c, states, steps)
    requires k < |states|
    requires forall j :: 0 <= j < |steps| ==> StartsAs(steps[j], me, v, fast)
    ensures Reaches(Plain(c), t) && Simulated(c, me, v, fast, states[k], t)
  {
    hide Reaches, Simulated, Init, StartsAs;
    if k == 0 {
      t := FollowInit(c, me, v, fast, states[0]);
    } else {
      var u := FollowRun(c, me, v, fast, states, steps, k - 1);
      t := FollowStep(c, me, v, fast, states[k - 1], states[k], u, steps[k - 1]);
      if t != u {
        var step :| Next(Plain(c), u, t, step);
        ReachesNext(Plain(c), u, t, step);
      }
    }
  }

  // ---------------------------------------------------------------- a node starts a slot once

  lemma {:induction false} StartedStays(c: Params, states: seq<SlotState>, steps: seq<Step>, j: nat, k: nat, me: nat)
    requires SlotRun(c, states, steps) && j <= k < |states| && me in states[j].started
    ensures me in states[k].started
    decreases k - j
  {
    hide AfterPromise, AfterAccepted, PrepareNext, AcceptNext;
    if j < k {
      StartedStays(c, states, steps, j, k - 1, me);
      assert Next(c, states[k - 1], states[k], steps[k - 1]);
    }
  }

  predicate StartsNode(step: Step, me: nat) {
    (step.Start? && step.view.whoami == me) || (step.Fast? && step.view.whoami == me)
  }

  lemma StartsOnce(c: Params, states: seq<SlotState>, steps: seq<Step>, j: nat, k: nat, me: nat)
    requires SlotRun(c, states, steps) && j < |steps| && k < |steps| && StartsNode(steps[j], me)
    requires StartsNode(steps[k], me)
    ensures j == k
  {
    assert Next(c, states[j], states[j + 1], steps[j]) && Next(c, states[k], states[k + 1], steps[k]);
    if j < k {
      StartedStays(c, states, steps, j + 1, k, me);
    } else if k < j {
      StartedStays(c, states, steps, k + 1, j, me);
    }
  }

  /** The value and the way in which the run starts the node, if it does. */
  lemma WayOfStarting(c: Params, states: seq<SlotState>, steps: seq<Step>, me: nat) returns (v: PropValue, fast: bool)
    requires SlotRun(c, states, steps)
    ensures forall j :: 0 <= j < |steps| ==> StartsAs(steps[j], me, v, fast)
  {
    if k: nat :| k < |steps| && StartsNode(steps[k], me) {
      v, fast := steps[k].value, steps[k].Fast?;
      forall j | 0 <= j < |steps|
        ensures StartsAs(steps[j], me, v, fast)
      {
        if StartsNode(steps[j], me) { StartsOnce(c, states, steps, j, k, me); }
      }
    } else {
      v, fast := PropValue(0, ""), false;
    }
  }

  /**
   Multi mode refines Basic mode: whatever state a leased slot reaches, the same slot without the
   lease reaches one with the same acceptors, at least the same messages, and, once the
   leaseholder has started, proposers that differ only in promises nobody reads.
   */
  lemma LeaseRefinesPlain(c: Params, me: nat, s: SlotState) returns (t: SlotState)
    requires ValidParams(c) && LeasedTo(c, me) && me < c.nodes && me in c.starters && Reaches(c, s)
    ensures Reaches(Plain(c), t) && t.acceptors == s.acceptors && s.net <= t.net
    ensures me in s.started ==> t.started == s.started && AllAlike(s.proposers, t.proposers)
  {
    var states, steps :| SlotRun(c, states, steps) && states[|states| - 1] == s;
    var v, fast := WayOfStarting(c, states, steps, me);
    t := FollowRun(c, me, v, fast, states, steps, |states| - 1);
  }

  /** So what a leased slot chooses, the plain slot chooses too, and agreement carries over. */
  lemma LeasedChoiceIsPlain(c: Params, me: nat, s: SlotState, v: PropValue) returns (t: SlotState)
    requires ValidParams(c) && LeasedTo(c, me) && me < c.nodes && me in c.starters && Reaches(c, s)
    requires Chosen(c, s.net, v)
    ensures Reaches(Plain(c), t) && Chosen(Plain(c), t.net, v)
  {
    hide Reaches;
    t := LeaseRefinesPlain(c, me, s);
    var b: nat :| ChosenAt(c, s.net, b, v);
    assert Voters(c, s.net, b) <= Voters(Plain(c), t.net, b);
    SubsetSize(Voters(c, s.net, b), Voters(Plain(c), t.net, b));
    assert ChosenAt(Plain(c), t.net, b, v);
  }

  /** Where all nodes name one master that proposes, this holds of every leased slot, in every run. */
  lemma LeasedSlotsRefine(cfg: Protocol.Config, states: seq<Protocol.DistState>, events: seq<Protocol.Event>,
    k: nat, slot: nat, me: nat) returns (t: SlotState)
    requires Protocol.ValidConfig(cfg) && Protocol.Run(cfg, states, events) && k < |states|
    requires cfg[0].mode.Multi? && slot >= 1 && me in Protocol.Masters(cfg)
    requires forall i :: 0 <= i < |cfg| ==> cfg[i].master == me && slot <= cfg[i].length
    ensures var s := Protocol.SlotOf(states[k], slot);
      Reaches(Plain(Protocol.ParamsOf(cfg, slot)), t) && t.acceptors == s.acceptors && s.net <= t.net &&
      (me in s.started ==> AllAlike(s.proposers, t.proposers))
  {
    hide Reaches, Protocol.SlotOf, Protocol.Run;
    var c := Protocol.ParamsOf(cfg, slot);
    forall i | 0 <= i < |cfg|
      ensures c.presets[i] == FirstBallot(me)
    {
      assert Protocol.ValidView(cfg, i, cfg[i]);
    }
    Replication.SlotsAreRuns(cfg, states, events, k, slot);
    t := LeaseRefinesPlain(c, me, Protocol.SlotOf(states[k], slot));
  }
}
