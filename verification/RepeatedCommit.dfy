/**
 When a committed value is chosen once only. A run that forwards a value to a master, and hands it
 over twice, chooses it in two slots, in every mode; only systems in which nothing is ever
 forwarded to a node that proposes, or nothing is ever chosen, are spared.
 */
module RepeatedCommit {
  import opened PaxosTypes
  import opened Acceptors
  import opened Proposers
  import opened CaptainSpec
  import opened CaptainInvariant
  import opened Progress
  import opened Protocol
  import opened SystemInvariant
  import opened ValueOrigin
  import opened AtMostOnce
  import opened ForwardedCommits
  import Synod

  // ---------------------------------------------------------------- one delivery, one slot

  /** Node `x` starts the value in its next slot, past the first phase in Multi mode. */
  ghost predicate Begun(cfg: Config, d: DistState, x: nat, s: nat, v: PropValue, info: InfoState)
    requires |cfg| > 0
  {
    Holding(d, x, s, info) && info.proposer.initValue == v && info.proposer.maxValue.None? &&
    if cfg[0].mode.Multi? then InSecond(d.net, x, s, info, First(x), v) else InFirst(d.net, x, s, info, First(x))
  }

  /** Acceptors from the slot on are as they were at the start. */
  ghost predicate Ready(cfg: Config, d: DistState, s: nat)
    requires |cfg| > 0
  {
    forall t: nat :: s <= t ==> Untouched(d, t) && (!cfg[0].mode.Multi? ==> UpTo(d, t, 0))
  }

  lemma HandsOver(cfg: Config, d: DistState, x: nat, s: nat, from: nat, v: PropValue)
    returns (d': DistState, info: InfoState)
    requires Up(cfg, d) && x in Masters(cfg) && Idle(d, x, s) && Commit(from, v) in d.net
    ensures Up(cfg, d') && Begun(cfg, d', x, s + 1, v, info) && OnlyNode(d, d', x)
  {
    assert ValidView(cfg, x, cfg[x]);
    var c := d.nodes[x];
    var o := OnCommit(cfg[x], c, from, v);
    var p := Prepared(NewProposer(v), x);
    if cfg[0].mode.Multi? {
      info := InfoState(1, p.(currValue := Some(v)), PHASEII);
      assert o.sent == [Commit(from, v), Accept(x, s + 1, First(x), v)];
    } else {
      info := InfoState(1, p, INIT);
      assert o.sent == [Commit(from, v), Prepare(x, s + 1, First(x))];
    }
    assert o.state.proposers == map[s + 1 := info];
    d' := NodeHandles(cfg, d, x, Commit(from, v), o);
  }

  /** Left alone, the proposer gets its value chosen. */
  lemma GetsChosen(cfg: Config, d: DistState, x: nat, s: nat, v: PropValue, info: InfoState) returns (d': DistState)
    requires Up(cfg, d) && x < |cfg| && cfg[0].qw <= |cfg| && Begun(cfg, d, x, s, v, info) && Ready(cfg, d, s)
    ensures Up(cfg, d') && Moved(d, d', x, s) && Finished(d', x, s, v, true) && ChosenIn(cfg, d'.net, s, v)
  {
    hide Reachable, AcceptorAt, ChosenIn, KnownOption, Finished, Moved;
    assert Untouched(d, s) && Alone(d, s, info) by { KnowsNone(d, s, info); }
    assert 0 < cfg[0].qr && 0 < cfg[0].qw;
    assert Owner(First(x)) == x;
    if cfg[0].mode.Multi? {
      var top := Top(d, s, |d.nodes|);
      d' := FromSecond(cfg, d, x, s, info, First(x), v, top, true);
    } else {
      var u, next, second := FirstRound(cfg, d, x, s, info, First(x), 0, true);
      var done, over;
      d', over, done := SecondRound(cfg, u, x, s, next, First(x), v, First(x), true);
      MovedTwice(d, u, d', x, s);
    }
  }

  lemma KnowsNone(d: DistState, s: nat, info: InfoState)
    requires Untouched(d, s) && info.proposer.maxValue.None?
    ensures Alone(d, s, info)
  {}

  /** Each time the request is handed over, its value is chosen in one more slot. */
  lemma OneMoreSlot(cfg: Config, d: DistState, x: nat, s: nat, from: nat, v: PropValue) returns (d': DistState)
    requires Up(cfg, d) && x in Masters(cfg) && cfg[0].qw <= |cfg| && Idle(d, x, s) && Ready(cfg, d, s + 1)
    requires Commit(from, v) in d.net
    ensures Up(cfg, d') && Idle(d', x, s + 1) && Ready(cfg, d', s + 2)
    ensures d.net <= d'.net && ChosenIn(cfg, d'.net, s + 1, v)
  {
    hide Reachable, AcceptorAt, ChosenIn;
    var u, info := HandsOver(cfg, d, x, s, from, v);
    SameReady(cfg, d, u, s + 1);
    d' := GetsChosen(cfg, u, x, s + 1, v, info);
    ReadyAbove(cfg, u, d', x, s + 1);
  }

  lemma SameReady(cfg: Config, d: DistState, d': DistState, s: nat)
    requires |cfg| > 0 && Ready(cfg, d, s) && |d.nodes| == |d'.nodes|
    requires forall p :: 0 <= p < |d.nodes| ==> d'.nodes[p].acceptors == d.nodes[p].acceptors
    ensures Ready(cfg, d', s)
  {
    assert forall p, t: nat :: 0 <= p < |d.nodes| ==> A(d', p, t) == A(d, p, t);
    hide AcceptorAt;
    forall t: nat | s <= t
      ensures Untouched(d', t) && (!cfg[0].mode.Multi? ==> UpTo(d', t, 0))
    {
      assert Untouched(d, t);
    }
  }

  lemma ReadyAbove(cfg: Config, d: DistState, d': DistState, x: nat, s: nat)
    requires |cfg| > 0 && Ready(cfg, d, s) && Moved(d, d', x, s)
    ensures Ready(cfg, d', s + 1)
  {
    hide AcceptorAt;
    forall t: nat | s + 1 <= t
      ensures Untouched(d', t) && (!cfg[0].mode.Multi? ==> UpTo(d', t, 0))
    {
      assert Untouched(d, t);
    }
  }

  /** A value that node `j` forwards and master `i` is handed twice is chosen in two slots. */
  lemma ChosenInTwoSlots(cfg: Config, i: nat, j: nat) returns (d: DistState, v: PropValue)
    requires WellFormed(cfg) && cfg[0].qw <= |cfg| && i in Masters(cfg) && j < |cfg| && cfg[j].master != j
    ensures Reachable(cfg, d) && ChosenIn(cfg, d.net, 1, v) && ChosenIn(cfg, d.net, 2, v)
  {
    hide Reachable, AcceptorAt, ChosenIn;
    var d0 := Begin(cfg);
    assert Ready(cfg, d0, 1) by { ReadyAtStart(cfg, d0); }
    var d1;
    d1, v := Forwards(cfg, d0, i, j);
    var d2 := OneMoreSlot(cfg, d1, i, 0, j, v);
    d := OneMoreSlot(cfg, d2, i, 1, j, v);
    ChosenStays(cfg, d2.net, d.net, 1, v);
  }

  lemma ReadyAtStart(cfg: Config, d: DistState)
    requires WellFormed(cfg) && |d.nodes| == |cfg| && forall t: nat :: Untouched(d, t)
    requires forall p: nat, t: nat :: p < |cfg| && (t > cfg[p].length || !cfg[p].mode.Multi?) ==>
      A(d, p, t) == FRESH_ACCEPTOR
    ensures Ready(cfg, d, 1)
  {
    hide AcceptorAt;
    forall p | 0 <= p < |cfg|
      ensures cfg[p].mode == cfg[0].mode
    {
      assert ValidView(cfg, p, cfg[p]);
    }
  }

  lemma Forwards(cfg: Config, d: DistState, i: nat, j: nat) returns (d': DistState, v: PropValue)
    requires Up(cfg, d) && j < |cfg| && cfg[j].master != j && i != j && Idle(d, i, 0) && Ready(cfg, d, 1)
    ensures Up(cfg, d') && Commit(j, v) in d'.net && Idle(d', i, 0) && Ready(cfg, d', 1)
  {
    hide Reachable, Untouched, UpTo;
    assert ValidView(cfg, j, cfg[j]);
    var o := LocalCommit(cfg[j], d.nodes[j], "x");
    v := PropValue(d.nodes[j].valueId + NODE_SPAN, "x");
    assert o.sent == [Commit(j, v)];
    d' := Apply(d, j, o);
    ReachNext(cfg, d, d', Commits(j, "x"));
    SameReady(cfg, d, d', 1);
  }

  // ---------------------------------------------------------------- exactly when

  /** In every reachable state, an id is chosen in one slot at most. */
  ghost predicate ChosenOnceEver(cfg: Config)
    requires |cfg| > 0
  {
    forall d, slot: nat, slot': nat, v: PropValue, w: PropValue ::
      (Reachable(cfg, d) && slot >= 1 && slot' >= 1 && v.id == w.id &&
       ChosenIn(cfg, d.net, slot, v) && ChosenIn(cfg, d.net, slot', w)) ==>
        slot == slot'
  }

  /** Every node takes itself for the master: nothing is forwarded. */
  predicate AllMasters(cfg: Config) {
    forall j :: 0 <= j < |cfg| ==> cfg[j].master == j
  }

  lemma NoneForwarded(cfg: Config, states: seq<DistState>, events: seq<Event>, k: nat)
    requires ValidConfig(cfg) && Run(cfg, states, events) && k < |states| && AllMasters(cfg)
    ensures HandledOnce(cfg, events, k)
  {
    hide Run, Handled;
    RunForwards(cfg, states, events, k);
  }

  /** A chosen value was proposed by a node that takes itself for the master and has a window. */
  lemma ChosenByMaster(cfg: Config, d: DistState, slot: nat, v: PropValue)
    requires ValidConfig(cfg) && OnceInv(cfg, d) && slot >= 1 && ChosenIn(cfg, d.net, slot, v)
    ensures Masters(cfg) != {}
  {
    hide ChosenIn, OnceOk, SlotOrigin;
    var i, a := ChosenWasStarted(cfg, d, slot, v);
    assert NodeInv(cfg[i], d.nodes[i]) && ValidView(cfg, i, cfg[i]);
    assert i in Masters(cfg);
  }

  lemma ChosenOnceIn(cfg: Config, d: DistState, slot: nat, slot': nat, v: PropValue, w: PropValue)
    requires ValidConfig(cfg) && Reachable(cfg, d) && (Masters(cfg) == {} || AllMasters(cfg))
    requires slot >= 1 && slot' >= 1 && v.id == w.id
    requires ChosenIn(cfg, d.net, slot, v) && ChosenIn(cfg, d.net, slot', w)
    ensures slot == slot'
  {
    hide ChosenIn, Next, Masters, AllMasters, HandledOnce, OnceInv;
    var states, events :| Run(cfg, states, events) && states[|states| - 1] == d;
    var k := |states| - 1;
    RunOnce(cfg, states, events, k);
    ChosenByMaster(cfg, d, slot, v);
    NoneForwarded(cfg, states, events, k);
    HandledOnceChosenOnce(cfg, states, events, k, slot, slot', v, w);
  }

  /**
   In every run an id is chosen in one slot at most, if and only if a write quorum is out of reach,
   or no node takes itself for the master and has a window, or every node takes itself for the
   master and so none forwards a value.
   */
  lemma ChosenOnceExactlyWhen(cfg: Config)
    requires ValidConfig(cfg)
    ensures ChosenOnceEver(cfg) <==> cfg[0].qw > |cfg| || Masters(cfg) == {} || AllMasters(cfg)
  {
    hide Reachable, ChosenIn, Masters;
    if cfg[0].qw > |cfg| {
      forall d: DistState, slot: nat, v
        ensures !ChosenIn(cfg, d.net, slot, v)
      {
        NothingChosen(cfg, d.net, slot, v);
      }
    } else if Masters(cfg) == {} || AllMasters(cfg) {
      forall d, slot: nat, slot': nat, v: PropValue, w: PropValue |
        Reachable(cfg, d) && slot >= 1 && slot' >= 1 && v.id == w.id &&
        ChosenIn(cfg, d.net, slot, v) && ChosenIn(cfg, d.net, slot', w)
        ensures slot == slot'
      {
        ChosenOnceIn(cfg, d, slot, slot', v, w);
      }
    } else {
      var i :| i in Masters(cfg);
      var j: nat :| j < |cfg| && cfg[j].master != j;
      var d, v := ChosenInTwoSlots(cfg, i, j);
    }
  }
}
