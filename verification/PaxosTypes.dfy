/** Values, views and messages of libndnpaxos. */
module PaxosTypes {

  datatype Option<T> = None | Some(value: T)

  /** A value under agreement: its id is unique to one call of `commit`. */
  datatype PropValue = PropValue(id: nat, data: string)

  /** MODE_TYPE 0, 1, 2 and 3. */
  datatype Mode = Basic | RS | Multi | Quorum

  /** What one node knows about the system: libndnpaxos/view.hpp. */
  datatype View = View(whoami: nat, master: nat, nodes: nat, qr: nat, qw: nat, mode: Mode, length: nat, window: nat,
      rsF: nat)

  /** 2^16: the low 16 bits of ballots and value ids hold a node id. */
  const NODE_SPAN: nat := 65536

  /** The answer to a prepare request. */
  datatype PromiseAck = PromiseAck(node: nat, ballot: nat, reply: bool, maxBallot: nat, maxValue: Option<PropValue>)

  /** The answer to an accept request. */
  datatype AcceptAck = AcceptAck(node: nat, ballot: nat, reply: bool)

  /** Answers carry the node they go back to; the transport delivers them to no one else. */
  datatype Message =
    | Prepare(node: nat, slot: nat, ballot: nat)
    | Promise(to: nat, slot: nat, promise: PromiseAck)
    | Accept(node: nat, slot: nat, ballot: nat, value: PropValue)
    | Accepted(to: nat, slot: nat, ack: AcceptAck)
    | Decide(node: nat, slot: nat, valueId: nat)
    | Learn(node: nat, slot: nat)
    | Teach(node: nat, slot: nat, value: PropValue)
    | Commit(node: nat, value: PropValue)

  datatype AckType = DROP | NOT_ENOUGH | CONTINUE | RESTART | CHOOSE

  /** The node that a ballot or a value id belongs to. */
  function Owner(id: nat): nat { id % NODE_SPAN }

  /** A majority: the smallest integer that is at least (n + 1) / 2. */
  function MajoritySize(n: nat): nat { (n + 2) / 2 }
}
