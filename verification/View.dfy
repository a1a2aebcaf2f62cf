/** Quorum sizes and roles: libndnpaxos/view.cpp. */
module Views {
  import opened PaxosTypes
  import opened Proposers
  import opened ProposerAnswers
  import opened Protocol
  import opened SynodAgreement
  import Replication
  import Synod

  /** The number of data blocks of the default code: the parity of `n` and `x` is the same. */
  function DefaultX(n: nat): nat {
    if n == 1 then 1 else if n % 2 == 0 then 2 else 3
  }

  /** The number is the largest that is at most three, at most the size, and of its parity. */
  ghost predicate IsLargestX(x: nat, n: nat) {
    Fits(x, n) && forall y: nat :: Fits(y, n) ==> y <= x
  }

  predicate Fits(x: nat, n: nat) {
    x <= 3 && x <= n && (n + x) % 2 == 0
  }

  lemma DefaultXIsLargest(n: nat)
    requires n >= 1
    ensures IsLargestX(DefaultX(n), n)
  {}

  /** What one node knows, read from its configuration: only the master may change. */
  class SystemView {
    const mode: Mode
    const window: nat
    const nodeId: nat
    const length: nat
    const size: nat
    const quorumSize: nat
    const rsX: nat
    const rsQr: nat
    const rsQw: nat
    const rsF: nat
    var masterId: nat

    /** The smallest integer that is at least (n + 1) / 2, computed over the reals. */
    static method Majority(n: nat) returns (q: nat)
      ensures q == MajoritySize(n)
      ensures 2 * q > n && 2 * q <= n + 2
    {
      var half := (n + 1) as real / 2.0;
      var ceiling := -((-half).Floor);
      assert half <= ceiling as real < half + 1.0;
      q := ceiling;
    }

    constructor (nodeId: nat, size: nat, masterId: nat, length: nat, mode: Mode, window: nat)
      requires size > 0
      ensures this.mode == mode && this.window == window && this.size == size && this.masterId == masterId
      ensures this.length == length
      ensures this.nodeId == if nodeId < size then nodeId else 0
      ensures quorumSize == MajoritySize(size)
      ensures mode.RS? ==> rsQr + rsQw == size + rsX && rsQr == rsQw && 1 <= rsX <= rsQr <= size && rsF == size - rsQr
      ensures mode.RS? ==> IsLargestX(rsX, size)
      ensures mode.RS? ==> rsF == (if size < 3 then 0 else (size - 2) / 2) && rsQw == size - rsF
      ensures BuiltByCode(AsView(), this.nodeId, size)
    {
      this.mode, this.window := mode, window;
      this.nodeId, this.masterId, this.length := nodeId, masterId, length;
      this.size := size;
      var q := Majority(size);
      quorumSize := q;
      rsX, rsQr, rsQw, rsF := 0, 0, 0, 0;
      if mode.RS? {
        var x := 1;
        if size != 1 {
          if size % 2 == 0 {
            x := 2;
          } else {
            x := 3;
          }
        }
        rsX := x;
        rsQr := (size + x) / 2;
        rsQw := (size + x) / 2;
        rsF := size - (size + x) / 2;
      }
      if nodeId >= size {
        this.nodeId := 0;
      }
    }

    method SetMaster(node: nat)
      modifies this`masterId
      ensures masterId == node
    {
      masterId := node;
    }

    /** The quorum sizes a proposer uses in the mode. */
    function AsView(): View
      reads this
    {
      var rs := mode.RS?;
      View(nodeId, masterId, size, if rs then rsQr else quorumSize, if rs then rsQw else quorumSize, mode, length,
        window, rsF)
    }
  }

  /** The view of node `i` among `n` as the configuration code sets it up. */
  predicate BuiltByCode(v: View, i: nat, n: nat) {
    v.whoami == i && v.nodes == n && v.qr == v.qw &&
    if v.mode.RS? then v.qr + v.qw == n + DefaultX(n) && v.rsF == n - v.qr else v.qr == MajoritySize(n)
  }

  /** Any two quorums of the code meet, so its configurations are among those agreement is proved for. */
  lemma QuorumsOfCodeMeet(cfg: Config)
    requires 0 < |cfg| <= NODE_SPAN && forall i :: 0 <= i < |cfg| ==> BuiltByCode(cfg[i], i, |cfg|)
    requires forall i :: 0 <= i < |cfg| ==> cfg[i].mode == cfg[0].mode
    requires cfg[0].mode.Multi? ==> |Masters(cfg)| <= 1
    ensures ValidConfig(cfg)
    ensures cfg[0].mode.RS? ==> cfg[0].qr + cfg[0].qw == |cfg| + DefaultX(|cfg|)
  {
    assert BuiltByCode(cfg[0], 0, |cfg|);
    forall i | 0 <= i < |cfg|
      ensures ValidView(cfg, i, cfg[i])
    {
      assert BuiltByCode(cfg[i], i, |cfg|);
    }
  }

  /** RS mode decodes only from at least `x` shares: all but `f` nodes, which is a whole quorum. */
  lemma DecodeHasEnough(view: View, i: nat, n: nat, p: ProposerState, m: PromiseAck)
    requires BuiltByCode(view, i, n) && view.mode.RS? && n >= 1
    ensures var (q, r) := AfterPromise(view, p, m);
      r == CONTINUE && q.maxValue.Some? ==>
        q.currValue == q.maxValue && |Shares(q.ackPrepare, q.maxValue.value.id)| >= view.qr >= DefaultX(n)
  {
    hide AfterPromise, Shares;
    DecodeHasShares(view, p, m);
  }

  /**
   RS mode of the code: the last reply of a quorum makes the proposer go on if and only if all
   replies are granted and either none reports a value that counts, or all carry its id.
   */
  lemma DefaultQuorumContinues(view: View, i: nat, n: nat, p: ProposerState, m: PromiseAck)
    requires BuiltByCode(view, i, n) && view.mode.RS? && n >= 1 && m.node < n && FiledByNode(p, n)
    requires m.ballot >= p.currBallot && p.currValue.None? && |p.ackPrepare[m.node := m]| == view.qr
    ensures var (q, r) := AfterPromise(view, p, m);
      var acks, best := p.ackPrepare[m.node := m], ReportWith(view, p, m);
      (r == CONTINUE <==> AllGrant(acks) && (best.value.Some? ==> AllCarry(acks, best.value.value.id))) &&
      (r == CONTINUE ==> q.currValue == if best.value.Some? then best.value else Some(p.initValue))
  {
    hide Highest, AfterPromise;
    QuorumContinues(view, p, m);
    PromiseAnswer(view, p, m);
  }

  /**
   RS mode of the code: when a promise completes the quorum of a ballot above a chosen one, at
   least `x` of the replies carry a share of the chosen value, as many as its blocks of data.
   */
  lemma ChosenSharesSuffice(cfg: Config, d: DistState, i: nat, slot: nat, m: PromiseAck, b: nat, v: PropValue)
    requires ValidConfig(cfg) && cfg[0].mode.RS? && BuiltByCode(cfg[0], 0, |cfg|) && Reachable(cfg, d) && i < |cfg|
    requires slot >= 1
    requires Synod.ChosenAt(ParamsOf(cfg, slot), d.net, b, v) && Promise(i, slot, m) in d.net
    ensures |d.nodes| == |cfg|
    ensures slot in d.nodes[i].proposers ==>
      var p := d.nodes[i].proposers[slot].proposer;
      var acks := p.ackPrepare[m.node := m];
      (b < p.currBallot <= m.ballot && |Granted(acks)| >= cfg[0].qr ==> |Shares(acks, v.id)| >= DefaultX(|cfg|))
  {
    hide Reachable, Granted, Shares, Synod.ChosenAt;
    Replication.EnoughSharesAt(cfg, d, i, slot, m, b, v, DefaultX(|cfg|));
  }
}
