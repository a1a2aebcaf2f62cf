/** One proposer of one slot: libndnpaxos/proposer.cpp. */
module Proposers {
  import opened PaxosTypes

  datatype ProposerState = ProposerState(
    initValue: PropValue,
    currBallot: nat,
    currValue: Option<PropValue>,
    maxBallot: nat,
    maxValue: Option<PropValue>,
    ackPrepare: map<nat, PromiseAck>,
    ackAccept: map<nat, AcceptAck>)

  function NewProposer(v: PropValue): ProposerState {
    ProposerState(v, 0, None, 0, None, map[], map[])
  }

  /** The first ballot carries the node id in its low 16 bits; later ones add to the counter. */
  function NextBallot(ballot: nat, me: nat): nat {
    if ballot == 0 then NODE_SPAN + me else ballot + NODE_SPAN
  }

  function Prepared(p: ProposerState, me: nat): ProposerState {
    p.(currBallot := NextBallot(p.currBallot, me))
  }

  /** The largest value and ballot reported survive a restart. */
  function Restarted(p: ProposerState, me: nat): ProposerState {
    p.(currValue := None, ackPrepare := map[], ackAccept := map[], currBallot := NextBallot(p.currBallot, me))
  }

  /** The ballot and value a proposer has to respect. */
  datatype Report = Report(ballot: nat, value: Option<PropValue>)

  /** The acks of nodes below `k`, scanned in ascending order: a higher ballot replaces the report. */
  function Highest(acks: map<nat, PromiseAck>, k: nat, start: Report): Report {
    if k == 0 then start else
      var r := Highest(acks, k - 1, start);
      if k - 1 in acks && acks[k - 1].reply && acks[k - 1].maxBallot > r.ballot
      then Report(acks[k - 1].maxBallot, acks[k - 1].maxValue)
      else r
  }

  ghost function Granted(acks: map<nat, PromiseAck>): set<nat> {
    set i | i in acks && acks[i].reply
  }

  ghost function Votes(acks: map<nat, AcceptAck>): set<nat> {
    set i | i in acks && acks[i].reply
  }

  /** The id read from a reply; a reply without a value reads as id 0. */
  function ReportedId(ack: PromiseAck): nat {
    if ack.maxValue.Some? then ack.maxValue.value.id else 0
  }

  /** The nodes whose share of the value `id` can be decoded. */
  ghost function Shares(acks: map<nat, PromiseAck>, id: nat): set<nat> {
    set i | i in acks && acks[i].reply && ReportedId(acks[i]) == id
  }

  ghost function AfterPromise(view: View, p: ProposerState, m: PromiseAck): (ProposerState, AckType) {
    if m.ballot < p.currBallot || p.currValue.Some? then (p, DROP)
    else
      var acks := p.ackPrepare[m.node := m];
      if |acks| < view.qr then (p.(ackPrepare := acks), NOT_ENOUGH)
      else
        var best := Highest(acks, view.nodes, Report(p.maxBallot, p.maxValue));
        var q := p.(ackPrepare := acks, maxBallot := best.ballot, maxValue := best.value);
        if |Granted(acks)| < view.qr then (q, RESTART)
        else if best.value.None? then (q.(currValue := Some(p.initValue)), CONTINUE)
        else if view.mode.RS? && view.nodes - |Shares(acks, best.value.value.id)| > view.rsF then (q, RESTART)
        else (q.(currValue := best.value), CONTINUE)
  }

  ghost function AfterAccepted(view: View, p: ProposerState, m: AcceptAck): (ProposerState, AckType) {
    if m.ballot < p.currBallot || p.currValue.None? then (p, DROP)
    else
      var acks := p.ackAccept[m.node := m];
      var q := p.(ackAccept := acks);
      if |acks| < view.qw then (q, NOT_ENOUGH)
      else if |Votes(acks)| >= view.qw then (q, CHOOSE)
      else (q, RESTART)
  }

  /** Acks are filed under the node that sent them, and nodes are numbered below `n`. */
  ghost predicate FiledByNode(p: ProposerState, n: nat) {
    (forall i :: i in p.ackPrepare ==> i < n && p.ackPrepare[i].node == i) &&
    (forall i :: i in p.ackAccept ==> i < n && p.ackAccept[i].node == i)
  }

  class Proposer {
    const view: View
    const initValue: PropValue
    var currBallot: nat
    var currValue: Option<PropValue>
    var maxBallot: nat
    var maxValue: Option<PropValue>
    var ackPrepare: map<nat, PromiseAck>
    var ackAccept: map<nat, AcceptAck>

    ghost function State(): ProposerState
      reads this
    {
      ProposerState(initValue, currBallot, currValue, maxBallot, maxValue, ackPrepare, ackAccept)
    }

    constructor (view: View, value: PropValue)
      ensures this.view == view && State() == NewProposer(value)
    {
      this.view, initValue := view, value;
      currBallot, currValue, maxBallot, maxValue := 0, None, 0, None;
      ackPrepare, ackAccept := map[], map[];
    }

    method GenNextBallot() returns (ballot: nat)
      modifies this`currBallot
      ensures State() == Prepared(old(State()), view.whoami) && ballot == currBallot
    {
      if currBallot == 0 {
        currBallot := (currBallot + NODE_SPAN) + view.whoami;
      } else {
        currBallot := currBallot + NODE_SPAN;
      }
      ballot := currBallot;
    }

    method MsgPrepare(slot: nat) returns (m: Message)
      modifies this`currBallot
      ensures State() == Prepared(old(State()), view.whoami)
      ensures m == Prepare(view.whoami, slot, currBallot)
    {
      var ballot := GenNextBallot();
      m := Prepare(view.whoami, slot, ballot);
    }

    method RestartMsgPrepare(slot: nat) returns (m: Message)
      modifies this
      ensures State() == Restarted(old(State()), view.whoami)
      ensures m == Prepare(view.whoami, slot, currBallot)
    {
      currValue := None;
      ackPrepare := map[];
      ackAccept := map[];
      m := MsgPrepare(slot);
    }

    method MsgAccept(slot: nat) returns (m: Message)
      requires currValue.Some?
      ensures m == Accept(view.whoami, slot, currBallot, currValue.value)
    {
      m := Accept(view.whoami, slot, currBallot, currValue.value);
    }

    method InitCurrValue()
      modifies this`currValue
      ensures State() == old(State()).(currValue := Some(initValue))
    {
      currValue := Some(initValue);
    }

    /** Takes over the highest report and counts the granted promises. */
    method ScanPromises() returns (trueCounter: nat)
      requires FiledByNode(State(), view.nodes)
      modifies this`maxBallot, this`maxValue
      ensures trueCounter == |Granted(ackPrepare)|
      ensures Report(maxBallot, maxValue) == Highest(ackPrepare, view.nodes, Report(old(maxBallot), old(maxValue)))
    {
      ghost var start := Report(maxBallot, maxValue);
      trueCounter := 0;
      var i := 0;
      ghost var counted: set<nat> := {};
      while i < view.nodes
        invariant 0 <= i <= view.nodes
        invariant counted == (set j | j in ackPrepare && ackPrepare[j].reply && j < i)
        invariant trueCounter == |counted|
        invariant Report(maxBallot, maxValue) == Highest(ackPrepare, i, start)
      {
        if i in ackPrepare && ackPrepare[i].reply {
          if ackPrepare[i].maxBallot > maxBallot {
            maxBallot := ackPrepare[i].maxBallot;
            maxValue := ackPrepare[i].maxValue;
          }
          trueCounter := trueCounter + 1;
          counted := counted + {i};
        }
        i := i + 1;
      }
      assert counted == Granted(ackPrepare);
    }

    /** Counts the shares that belong to the value `id`. */
    method CountShares(id: nat) returns (count: nat)
      requires FiledByNode(State(), view.nodes)
      ensures count == |Shares(ackPrepare, id)| <= view.nodes
    {
      count := 0;
      var i := 0;
      ghost var counted: set<nat> := {};
      while i < view.nodes
        invariant 0 <= i <= view.nodes
        invariant counted ==
          (set j | j in ackPrepare && ackPrepare[j].reply && ReportedId(ackPrepare[j]) == id && j < i)
        invariant count == |counted| <= i
      {
        if i in ackPrepare && ackPrepare[i].reply && ReportedId(ackPrepare[i]) == id {
          count := count + 1;
          counted := counted + {i};
        }
        i := i + 1;
      }
      assert counted == Shares(ackPrepare, id);
    }

    method HandleMsgPromise(m: PromiseAck) returns (r: AckType)
      requires m.node < view.nodes && FiledByNode(State(), view.nodes)
      modifies this
      ensures (State(), r) == AfterPromise(view, old(State()), m)
      ensures FiledByNode(State(), view.nodes)
    {
      if m.ballot < currBallot || currValue.Some? {
        return DROP;
      }
      ackPrepare := ackPrepare[m.node := m];
      if |ackPrepare| < view.qr {
        return NOT_ENOUGH;
      }
      var trueCounter := ScanPromises();
      if trueCounter >= view.qr {
        if maxValue.Some? {
          if view.mode.RS? {
            var count := CountShares(maxValue.value.id);
            var lostNum := view.nodes - count;
            if lostNum > view.rsF {
              return RESTART;
            }
          }
          currValue := maxValue;
        } else {
          currValue := Some(initValue);
        }
        return CONTINUE;
      } else {
        return RESTART;
      }
    }

    method HandleMsgAccepted(m: AcceptAck) returns (r: AckType)
      requires m.node < view.nodes && FiledByNode(State(), view.nodes)
      modifies this`ackAccept
      ensures (State(), r) == AfterAccepted(view, old(State()), m)
      ensures FiledByNode(State(), view.nodes)
    {
      if m.ballot < currBallot || currValue.None? {
        return DROP;
      }
      ackAccept := ackAccept[m.node := m];
      if |ackAccept| < view.qw {
        return NOT_ENOUGH;
      }
      var trueCounter := 0;
      var i := 0;
      ghost var counted: set<nat> := {};
      while i < view.nodes
        invariant 0 <= i <= view.nodes
        invariant counted == (set j | j in ackAccept && ackAccept[j].reply && j < i)
        invariant trueCounter == |counted|
      {
        if i in ackAccept && ackAccept[i].reply {
          trueCounter := trueCounter + 1;
          counted := counted + {i};
        }
        i := i + 1;
      }
      assert counted == Votes(ackAccept);
      if trueCounter >= view.qw {
        return CHOOSE;
      } else {
        return RESTART;
      }
    }
  }
}
