/**
 When Multi mode keeps its promise. Agreement holds in every run if at most one node takes itself
 for the master and can propose; with two such nodes, some run chooses two ids in one slot,
 whatever masters the other nodes name and however long the leases are. The run lets the two nodes
 climb past the last leased slot one after the other, the larger one arriving there past the first
 phase, and then has the smaller one finish first.
 */
module TwoMasters {
  import opened Counting
  import opened PaxosTypes
  import opened Acceptors
  import opened Proposers
  import opened CaptainSpec
  import opened CaptainInvariant
  import opened Progress
  import opened Protocol
  import opened SystemInvariant
  import opened ValueOrigin
  import Replication
  import Synod

  // ---------------------------------------------------------------- climbing the slots

  /** Node `x` has just started its latest slot with a value of its own, past the first phase or not. */
  ghost predicate Started(d: DistState, x: nat, s: nat, info: InfoState, fast: bool) {
    Holding(d, x, s, info) && Owner(info.proposer.initValue.id) == x && Owner(d.nodes[x].valueId) == x &&
    info.proposer.ackAccept == map[] && info.proposer.maxBallot == 0 && info.proposer.maxValue.None? &&
    if fast then InSecond(d.net, x, s, info, First(x), info.proposer.initValue)
    else InFirst(d.net, x, s, info, First(x))
  }

  lemma OwnId(x: nat, id: nat)
    requires Owner(id) == x
    ensures Owner(id + NODE_SPAN) == x
  {}

  /** An idle master that gets a value starts the next slot past the first phase. */
  lemma CommitsNext(cfg: Config, d: DistState, x: nat, s: nat) returns (d': DistState, info: InfoState)
    requires Up(cfg, d) && cfg[0].mode.Multi? && x in Masters(cfg) && Idle(d, x, s)
    ensures Up(cfg, d') && Started(d', x, s + 1, info, true) && d.net <= d'.net && |d'.nodes| == |d.nodes|
    ensures forall p :: 0 <= p < |d.nodes| && p != x ==> d'.nodes[p] == d.nodes[p]
    ensures d'.nodes[x].acceptors == d.nodes[x].acceptors
  {
    assert ValidView(cfg, x, cfg[x]);
    var c := d.nodes[x];
    var id := c.valueId + NODE_SPAN;
    var v := PropValue(id, "x");
    OwnId(x, c.valueId);
    var p := Prepared(NewProposer(v), x).(currValue := Some(v));
    info := InfoState(1, p, PHASEII);
    var o := LocalCommit(cfg[x], c, "x");
    assert o.sent == [Accept(x, s + 1, First(x), v)];
    assert o.state.proposers == map[s + 1 := info];
    d' := Apply(d, x, o);
    ReachNext(cfg, d, d', Commits(x, "x"));
  }

  /** Only node `x` and acceptors of the slots before the target have changed. */
  ghost predicate MovedBelow(d: DistState, d': DistState, x: nat, target: nat) {
    x < |d.nodes| == |d'.nodes| && d.net <= d'.net &&
    (forall p :: 0 <= p < |d.nodes| && p != x ==> d'.nodes[p] == d.nodes[p].(acceptors := d'.nodes[p].acceptors)) &&
    (forall p, t: nat :: 0 <= p < |d.nodes| && target <= t ==> A(d', p, t) == A(d, p, t))
  }

  /** A commit after the end of a slot. */
  lemma MovedThenCommits(d: DistState, u: DistState, d': DistState, x: nat, s: nat)
    requires Moved(d, u, x, s) && |d'.nodes| == |u.nodes| && u.net <= d'.net
    requires d'.nodes[x].acceptors == u.nodes[x].acceptors
    requires forall p :: 0 <= p < |u.nodes| && p != x ==> d'.nodes[p] == u.nodes[p]
    ensures MovedBelow(d, d', x, s + 1)
  {
    forall p, t: nat | 0 <= p < |d.nodes| && s + 1 <= t
      ensures A(d', p, t) == A(d, p, t)
    {
      assert A(u, p, t) == A(d, p, t);
    }
  }

  lemma UntouchedAbove(d: DistState, d': DistState, x: nat, s: nat)
    requires MovedBelow(d, d', x, s) && forall t: nat :: s <= t ==> Untouched(d, t)
    ensures forall t: nat :: s <= t ==> Untouched(d', t)
  {
    hide AcceptorAt;
    forall t: nat | s <= t
      ensures Untouched(d', t)
    {
      assert Untouched(d, t);
    }
  }

  /** From one slot to the next; past the first phase again if nobody else has been in the slot. */
  lemma Climb(cfg: Config, d: DistState, x: nat, s: nat, info: InfoState, fast: bool, own: bool)
    returns (d': DistState, info': InfoState, fast': bool)
    requires Up(cfg, d) && cfg[0].mode.Multi? && x in Masters(cfg) && 0 < cfg[0].qr && 0 < cfg[0].qw <= |cfg|
    requires Started(d, x, s, info, fast) && (own ==> Untouched(d, s))
    ensures Up(cfg, d') && Started(d', x, s + 1, info', fast') && MovedBelow(d, d', x, s + 1) && (own ==> fast')
  {
    hide Reachable;
    var top := Top(d, s, |d.nodes|);
    var init := info.proposer.initValue;
    var u;
    if fast {
      u := FromSecond(cfg, d, x, s, info, First(x), init, top, own);
    } else {
      u := FromFirst(cfg, d, x, s, info, First(x), top, own);
    }
    if next :| Again(u, x, s, init, next) && !own {
      d', info', fast' := u, next, false;
    } else {
      assert Idle(u, x, s);
      d', info' := CommitsNext(cfg, u, x, s);
      fast' := true;
      MovedThenCommits(d, u, d', x, s);
    }
  }

  lemma {:induction false} ClimbTo(cfg: Config, d: DistState, x: nat, s: nat, info: InfoState, fast: bool, own: bool,
      target: nat)
    returns (d': DistState, info': InfoState, fast': bool)
    requires Up(cfg, d) && cfg[0].mode.Multi? && x in Masters(cfg) && 0 < cfg[0].qr && 0 < cfg[0].qw <= |cfg|
    requires s <= target
    requires Started(d, x, s, info, fast) && (own ==> fast && forall t: nat :: s <= t ==> Untouched(d, t))
    ensures Up(cfg, d') && Started(d', x, target, info', fast') && MovedBelow(d, d', x, target) && (own ==> fast')
    decreases target - s
  {
    hide Reachable, AcceptorAt, Started, Up;
    d', info', fast' := d, info, fast;
    StartedNode(d, x, s, info, fast);
    if s < target {
      var u, next, quick := Climb(cfg, d, x, s, info, fast, own);
      if own { UntouchedAbove(d, u, x, s + 1); }
      d', info', fast' := ClimbTo(cfg, u, x, s + 1, next, quick, own, target);
    }
  }

  lemma StartedNode(d: DistState, x: nat, s: nat, info: InfoState, fast: bool)
    requires Started(d, x, s, info, fast)
    ensures x < |d.nodes|
  {}

  // ---------------------------------------------------------------- two of them

  lemma {:induction false} LongestLease(cfg: Config, k: nat) returns (m: nat)
    requires k <= |cfg|
    ensures forall p :: 0 <= p < k ==> cfg[p].length <= m
  {
    if k == 0 {
      m := 0;
    } else {
      m := LongestLease(cfg, k - 1);
      m := Larger(m, cfg[k - 1].length);
    }
  }

  /** All nodes vote for the value. */
  lemma AllChoose(cfg: Config, net: set<Message>, x: nat, s: nat, v: PropValue)
    requires WellFormed(cfg) && x < |cfg| && cfg[0].qw <= |cfg| && Accept(x, s, First(x), v) in net
    requires forall p: nat :: p < |cfg| ==> Accepted(x, s, AcceptAck(p, First(x), true)) in net
    ensures ChosenIn(cfg, net, s, v)
  {
    var c := ParamsOf(cfg, s);
    assert Owner(First(x)) == x;
    assert Synod.Voters(c, net, First(x)) == Interval(0, |cfg|);
    assert Synod.ChosenAt(c, net, First(x), v);
  }

  /** A round of votes at the first ballot of `x`, which nobody has promised to pass. */
  lemma VoteFor(cfg: Config, d: DistState, x: nat, s: nat, v: PropValue) returns (d': DistState)
    requires Up(cfg, d) && x < |cfg| && cfg[0].qw <= |cfg| && Accept(x, s, First(x), v) in d.net && UpTo(d, s, First(x))
    ensures Up(cfg, d') && d.net <= d'.net && ChosenIn(cfg, d'.net, s, v) && UpTo(d', s, First(x))
  {
    hide Reachable, ChosenIn, AcceptorAt;
    d' := Accepts(cfg, d, x, s, First(x), v, |cfg|);
    forall p: nat | p < |cfg|
      ensures Accepted(x, s, AcceptAck(p, First(x), true)) in d'.net
    {
      assert AcceptAckFor(A(d, p, s), p, First(x)) == AcceptAck(p, First(x), true);
    }
    AllChoose(cfg, d'.net, x, s, v);
  }

  /** In a fresh slot, node `i` finishes first, and then node `j` > `i`, past the first phase, all the same. */
  lemma BothFinish(cfg: Config, d: DistState, m: nat, i: nat, j: nat, infoI: InfoState, fast: bool, v: PropValue)
    returns (d': DistState, w: PropValue)
    requires Up(cfg, d) && cfg[0].mode.Multi? && i < j < |cfg| && 0 < cfg[0].qr && cfg[0].qw <= |cfg| && m >= 1
    requires forall p :: 0 <= p < |cfg| ==> A(d, p, m) == FRESH_ACCEPTOR
    requires Started(d, i, m, infoI, fast) && Accept(j, m, First(j), v) in d.net && Owner(v.id) == j
    ensures Up(cfg, d') && ChosenIn(cfg, d'.net, m, v) && ChosenIn(cfg, d'.net, m, w) && v.id != w.id
  {
    hide Reachable, ChosenIn, AcceptorAt, KnownOption;
    w := infoI.proposer.initValue;
    var u := d;
    assert UpTo(d, m, 0);
    if !fast {
      var next, second;
      assert Alone(d, m, infoI) by { FreshAlone(d, m, infoI); }
      u, next, second := FirstRound(cfg, d, i, m, infoI, First(i), 0, true);
    }
    assert UpTo(u, m, First(i));
    var x := VoteFor(cfg, u, i, m, w);
    d' := VoteFor(cfg, x, j, m, v);
    ChosenStays(cfg, x.net, d'.net, m, w);
  }

  lemma FreshAlone(d: DistState, m: nat, info: InfoState)
    requires forall p :: 0 <= p < |d.nodes| ==> A(d, p, m) == FRESH_ACCEPTOR
    requires info.proposer.maxValue.None?
    ensures Alone(d, m, info)
  {}

  /** With two nodes that propose, some slot gets two ids. */
  lemma Disagree(cfg: Config, i: nat, j: nat) returns (d: DistState, slot: nat, v: PropValue, w: PropValue)
    requires WellFormed(cfg) && cfg[0].mode.Multi? && cfg[0].qw <= |cfg|
    requires i in Masters(cfg) && j in Masters(cfg) && i < j
    ensures Reachable(cfg, d) && slot >= 1 && ChosenIn(cfg, d.net, slot, v) && ChosenIn(cfg, d.net, slot, w)
    ensures v.id != w.id
  {
    hide Reachable, ChosenIn, AcceptorAt;
    var longest := LongestLease(cfg, |cfg|);
    slot := longest + 1;
    var d0 := Begin(cfg);
    var d1, info := CommitsNext(cfg, d0, j, 0);
    assert forall t: nat :: Untouched(d1, t) by { SameUntouched(d0, d1, j); }
    var d2, infoJ, fastJ := ClimbTo(cfg, d1, j, 1, info, true, true, slot);
    assert Idle(d2, i, 0) by { assert Idle(d0, i, 0); }
    var d3, first := CommitsNext(cfg, d2, i, 0);
    var d4, infoI, fastI := ClimbTo(cfg, d3, i, 1, first, true, false, slot);
    v := infoJ.proposer.initValue;
    FreshSlot(cfg, d0, d1, d2, d3, d4, i, j, slot);
    d, w := BothFinish(cfg, d4, slot, i, j, infoI, fastI, v);
  }

  lemma SameUntouched(d: DistState, d': DistState, x: nat)
    requires (forall t: nat :: Untouched(d, t)) && x < |d.nodes| == |d'.nodes|
    requires d'.nodes[x].acceptors == d.nodes[x].acceptors
    requires forall p :: 0 <= p < |d.nodes| && p != x ==> d'.nodes[p] == d.nodes[p]
    ensures forall t: nat :: Untouched(d', t)
  {
    forall t: nat
      ensures Untouched(d', t)
    {
      assert Untouched(d, t);
      assert forall p :: 0 <= p < |d.nodes| ==> A(d', p, t) == A(d, p, t);
    }
  }

  lemma FreshSlot(cfg: Config, d0: DistState, d1: DistState, d2: DistState, d3: DistState, d4: DistState, i: nat,
      j: nat, slot: nat)
    requires |cfg| == |d0.nodes| == |d1.nodes| == |d2.nodes| == |d3.nodes| == |d4.nodes| && i < |cfg| && j < |cfg|
    requires forall p: nat, t: nat :: p < |cfg| && t > cfg[p].length ==> A(d0, p, t) == FRESH_ACCEPTOR
    requires forall p :: 0 <= p < |cfg| ==> cfg[p].length < slot
    requires d1.nodes[j].acceptors == d0.nodes[j].acceptors && d3.nodes[i].acceptors == d2.nodes[i].acceptors
    requires forall p :: 0 <= p < |cfg| && p != j ==> d1.nodes[p] == d0.nodes[p]
    requires forall p :: 0 <= p < |cfg| && p != i ==> d3.nodes[p] == d2.nodes[p]
    requires MovedBelow(d1, d2, j, slot) && MovedBelow(d3, d4, i, slot)
    ensures forall p :: 0 <= p < |cfg| ==> A(d4, p, slot) == FRESH_ACCEPTOR
  {
    forall p: nat | p < |cfg|
      ensures A(d4, p, slot) == FRESH_ACCEPTOR
    {
      assert A(d0, p, slot) == FRESH_ACCEPTOR;
      assert A(d1, p, slot) == A(d0, p, slot);
      assert A(d2, p, slot) == A(d1, p, slot);
      assert A(d3, p, slot) == A(d2, p, slot);
    }
  }

  // ---------------------------------------------------------------- exactly when

  /** In every reachable state, a slot has one chosen id at most. */
  ghost predicate Agrees(cfg: Config)
    requires |cfg| > 0
  {
    forall d, slot: nat, v, w ::
      (Reachable(cfg, d) && slot >= 1 && ChosenIn(cfg, d.net, slot, v) && ChosenIn(cfg, d.net, slot, w)) ==>
        v.id == w.id
  }

  lemma TwoElements(s: set<nat>) returns (i: nat, j: nat)
    requires |s| >= 2
    ensures i in s && j in s && i < j
  {
    var a :| a in s;
    assert |s - {a}| >= 1;
    var b :| b in s - {a};
    i, j := if a < b then a else b, if a < b then b else a;
  }

  /**
   Agreement holds in every run if and only if the mode is not Multi, or a write quorum is out of
   reach, or at most one node takes itself for the master and has a window.
   */
  lemma AgreesExactlyWhen(cfg: Config)
    requires WellFormed(cfg)
    ensures Agrees(cfg) <==> !cfg[0].mode.Multi? || cfg[0].qw > |cfg| || |Masters(cfg)| <= 1
  {
    hide Reachable, ChosenIn, SystemInv, Masters;
    if cfg[0].qw > |cfg| {
      forall d: DistState, slot: nat, v
        ensures !ChosenIn(cfg, d.net, slot, v)
      {
        NothingChosen(cfg, d.net, slot, v);
      }
    } else if ValidConfig(cfg) {
      forall d, slot: nat, v, w |
        Reachable(cfg, d) && slot >= 1 && ChosenIn(cfg, d.net, slot, v) && ChosenIn(cfg, d.net, slot, w)
        ensures v.id == w.id
      {
        ReachableInv(cfg, d);
        Replication.ChosenOnce(cfg, d, slot, v, w);
      }
    } else {
      var i, j := TwoElements(Masters(cfg));
      var d, slot, v, w := Disagree(cfg, i, j);
    }
  }
}
