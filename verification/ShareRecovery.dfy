/**
 RS mode puts one block of a value's code word on each node. How a proposer gets a reported value
 back from the blocks that its promises carry: libndnpaxos/proposer.cpp.
 */
module ShareRecovery {
  import opened PaxosTypes
  import opened Proposers
  import opened Protocol
  import opened FecKernels
  import opened ReedSolomon
  import opened Views
  import opened Counting
  import opened SystemInvariant
  import opened CaptainInvariant
  import Synod
  import SynodInvariant

  /** What a promise says about the stored value: whether it was granted, an id and one block. */
  datatype ShareReply = ShareReply(reply: bool, id: nat, block: Bytes)

  /** The nodes whose reply carries a block of the value `id`. */
  ghost function Holders(replies: map<nat, ShareReply>, id: nat): set<nat> {
    set i | i in replies && replies[i].reply && replies[i].id == id
  }

  /** The blocks of the value are those of its code word. */
  ghost predicate FromWord(replies: map<nat, ShareReply>, id: nat, word: seq<Bytes>) {
    forall i :: i in Holders(replies, id) ==> i < |word| && replies[i].block == word[i]
  }

  /** The blocks of the holders below `k` are in place, and nothing else is. */
  ghost predicate Gathered(replies: map<nat, ShareReply>, id: nat, k: nat, blocks: seq<Bytes>, have: seq<bool>) {
    |blocks| == |have| &&
    (forall i :: 0 <= i < |have| ==> (have[i] <==> i < k && i in Holders(replies, id))) &&
    forall i :: 0 <= i < |blocks| ==> blocks[i] == if have[i] then replies[i].block else []
  }

  /** The number of holders below `k`. */
  ghost function HoldersBelow(replies: map<nat, ShareReply>, id: nat, k: nat): nat {
    |Holders(replies, id) * Interval(0, k)|
  }

  /** The blocks in place, which of them are there, and how many are not. */
  method Gather(replies: map<nat, ShareReply>, id: nat, n: nat)
      returns (blocks: seq<Bytes>, have: seq<bool>, lost: nat)
    requires forall i :: i in replies ==> i < n
    ensures |blocks| == n && lost == n - |Holders(replies, id)|
    ensures Gathered(replies, id, n, blocks, have)
  {
    hide Holders, HoldersBelow, Gathered;
    blocks := seq(n, i => []);
    have := seq(n, i => false);
    lost := n;
    var i := 0;
    NoneGathered(replies, id, blocks, have);
    while i < n
      invariant 0 <= i <= n == |blocks| == |have|
      invariant Gathered(replies, id, i, blocks, have)
      invariant lost == n - HoldersBelow(replies, id, i) >= n - i
    {
      HoldersNext(replies, id, i);
      GatheredNext(replies, id, i, blocks, have);
      if i in replies && replies[i].reply && replies[i].id == id {
        blocks := blocks[i := replies[i].block];
        have := have[i := true];
        lost := lost - 1;
      }
      i := i + 1;
    }
    AllHolders(replies, id, n);
  }

  lemma NoneGathered(replies: map<nat, ShareReply>, id: nat, blocks: seq<Bytes>, have: seq<bool>)
    requires |blocks| == |have| && forall i :: 0 <= i < |have| ==> blocks[i] == [] && !have[i]
    ensures Gathered(replies, id, 0, blocks, have) && HoldersBelow(replies, id, 0) == 0
  {
    assert Holders(replies, id) * Interval(0, 0) == {};
  }

  lemma GatheredNext(replies: map<nat, ShareReply>, id: nat, k: nat, blocks: seq<Bytes>, have: seq<bool>)
    requires Gathered(replies, id, k, blocks, have) && k < |blocks|
    ensures k in Holders(replies, id) <==> k in replies && replies[k].reply && replies[k].id == id
    ensures if k in Holders(replies, id)
      then Gathered(replies, id, k + 1, blocks[k := replies[k].block], have[k := true])
      else Gathered(replies, id, k + 1, blocks, have)
  {}

  lemma AllHolders(replies: map<nat, ShareReply>, id: nat, n: nat)
    requires forall i :: i in replies ==> i < n
    ensures HoldersBelow(replies, id, n) == |Holders(replies, id)|
  {
    assert Holders(replies, id) * Interval(0, n) == Holders(replies, id);
  }

  lemma HoldersNext(replies: map<nat, ShareReply>, id: nat, k: nat)
    ensures HoldersBelow(replies, id, k + 1) ==
      HoldersBelow(replies, id, k) + if k in Holders(replies, id) then 1 else 0
    ensures HoldersBelow(replies, id, k) <= k
  {
    hide Holders;
    var s := Holders(replies, id);
    assert Interval(0, k + 1) == Interval(0, k) + {k};
    assert s * Interval(0, k + 1) == s * Interval(0, k) + if k in s then {k} else {};
    SubsetSize(s * Interval(0, k), Interval(0, k));
  }

  /** The number of blocks present is the number of nodes that hold one. */
  lemma {:induction false} PresentCount(have: seq<bool>, s: set<nat>, n: nat)
    requires n <= |have| && forall i :: 0 <= i < n ==> (have[i] <==> i in s)
    requires forall i :: i in s ==> i < n
    ensures Present(have, 0, n) == |s|
  {
    if n == 0 {
      assert s == {};
    } else {
      PresentCount(have, s - {n - 1}, n - 1);
      PresentSplit(have, 0, n - 1, n);
      assert Present(have, n - 1, n) == if have[n - 1] then 1 else 0;
    }
  }

  /** The condition under which decoding gives the string back, by which nodes hold a block. */
  ghost predicate HoldersComeBack(replies: map<nat, ShareReply>, id: nat, data: Bytes, k: nat)
    requires k > 0
  {
    ComesBack(0 in Holders(replies, id), k - 1 in Holders(replies, id), data, k)
  }

  /** Decodes what was gathered. */
  method Decode(decoder: RSDecoder, replies: map<nat, ShareReply>, id: nat, blocks: seq<Bytes>, have: seq<bool>,
      lost: nat, ghost data: Bytes, ghost word: seq<Bytes>) returns (r: Bytes)
    requires decoder.Valid() && forall i :: i in replies ==> i < decoder.n
    requires Lack(|data|, decoder.k) <= 1 && IsEncoding(word, data, decoder.k, decoder.n) && FromWord(replies, id, word)
    requires |blocks| == decoder.n && lost == decoder.n - |Holders(replies, id)|
    requires Gathered(replies, id, decoder.n, blocks, have) && |Holders(replies, id)| >= decoder.k
    modifies decoder
    ensures r == decoder.decodedData && old(decoder.decodedData) <= r
    ensures r[|old(decoder.decodedData)|..] == data <==> HoldersComeBack(replies, id, data, decoder.k)
  {
    hide RSDecoder.Valid, IsEncoding, Arrived, Present, Lack, ComesBack;
    ValidSizes(decoder);
    PresentCount(have, Holders(replies, id), decoder.n);
    EncodingLength(word, data, decoder.k, decoder.n);
    CodeWordArrives(word, blocks, have, data, decoder.k, decoder.n);
    r := decoder.RsDecode(blocks, have, lost, data);
  }

  lemma ValidSizes(decoder: RSDecoder)
    requires decoder.Valid()
    ensures 0 < decoder.k <= decoder.n
  {}

  /** The decoder of a proposer. */
  ghost predicate DecoderFor(decoder: RSDecoder, n: nat)
    reads decoder.t.gfExp, decoder.t.inverse, decoder.t.gfMulTable, decoder.fec.encMatrix
  {
    decoder.Valid() && decoder.n == n && decoder.k == DefaultX(n)
  }

  /**
   The value of the highest report, rebuilt from its blocks; None starts the ballot over. That
   happens exactly if more than `f` blocks are missing. What the decoder adds to its earlier results
   is the value that was encoded exactly if the nodes that matter are among the holders; then the
   whole result is right exactly if the decoder had no earlier results.
   */
  method Recover(decoder: RSDecoder, view: View, replies: map<nat, ShareReply>, id: nat,
      ghost data: Bytes, ghost word: seq<Bytes>) returns (r: Option<Bytes>)
    requires view.mode.RS? && view.nodes >= 1 && BuiltByCode(view, view.whoami, view.nodes)
    requires DecoderFor(decoder, view.nodes) && forall i :: i in replies ==> i < view.nodes
    requires Lack(|data|, decoder.k) <= 1 && IsEncoding(word, data, decoder.k, decoder.n) && FromWord(replies, id, word)
    modifies decoder
    ensures r.None? <==> view.nodes - |Holders(replies, id)| > view.rsF
    ensures r.None? ==> decoder.decodedData == old(decoder.decodedData)
    ensures r.Some? ==> old(decoder.decodedData) <= r.value == decoder.decodedData
    ensures r.Some? ==>
      (r.value[|old(decoder.decodedData)|..] == data <==> HoldersComeBack(replies, id, data, decoder.k))
    ensures r.Some? && HoldersComeBack(replies, id, data, decoder.k) ==>
      (r.value == data <==> old(decoder.decodedData) == [])
  {
    hide RSDecoder.Valid, IsEncoding, Holders, FromWord, Gathered, Lack, HoldersComeBack;
    var blocks, have, lost := Gather(replies, id, view.nodes);
    if lost > view.rsF {
      return None;
    }
    var decoded := Decode(decoder, replies, id, blocks, have, lost, data, word);
    r := Some(decoded);
  }

  /** The replies are the promises of the protocol, with one block in place of each value. */
  ghost predicate InBlocks(acks: map<nat, PromiseAck>, replies: map<nat, ShareReply>) {
    acks.Keys == replies.Keys &&
    forall i :: i in acks ==> replies[i].reply == acks[i].reply && replies[i].id == ReportedId(acks[i])
  }

  lemma AcksOfNodes(cfg: Config, d: DistState, i: nat, slot: nat, m: PromiseAck)
    requires ValidConfig(cfg) && Reachable(cfg, d) && i < |cfg| == |d.nodes| && slot >= 1
    requires slot in d.nodes[i].proposers && Promise(i, slot, m) in d.net
    ensures m.node < |cfg| && forall j :: j in d.nodes[i].proposers[slot].proposer.ackPrepare ==> j < |cfg|
  {
    hide Reachable, NodeInv, ValuesOk, LogsLearned, NewsLearned;
    ReachableInv(cfg, d);
    assert SlotInv(cfg, d, slot);
    var c, s := ParamsOf(cfg, slot), SlotOf(d, slot);
    assert SynodInvariant.ProposerOk(c, s.net, i, s.proposers[i]);
    assert Promise(i, slot, m) in s.net;
  }

  /**
   After a choice: in every reachable state, the promises that complete the quorum of a higher
   ballot carry at least `x` blocks of the chosen value, and decoding them gives the chosen string
   exactly if the nodes that matter are among their holders.
   */
  method DecodeChosen(t: Tables, replies: map<nat, ShareReply>, n: nat, id: nat, ghost cfg: Config, ghost d: DistState,
      ghost i: nat, ghost slot: nat, ghost m: PromiseAck, ghost b: nat, ghost v: PropValue,
      ghost data: Bytes, ghost word: seq<Bytes>) returns (r: Bytes)
    requires ValidConfig(cfg) && cfg[0].mode.RS? && BuiltByCode(cfg[0], 0, |cfg|) && Reachable(cfg, d)
    requires i < |cfg| == |d.nodes| && slot >= 1 && slot in d.nodes[i].proposers && id == v.id && n == |cfg| <= 256
    requires Synod.ChosenAt(ParamsOf(cfg, slot), d.net, b, v) && Promise(i, slot, m) in d.net
    requires b < d.nodes[i].proposers[slot].proposer.currBallot <= m.ballot
    requires var acks := d.nodes[i].proposers[slot].proposer.ackPrepare[m.node := m];
      |Granted(acks)| >= cfg[0].qr && InBlocks(acks, replies)
    requires t.Valid() && Lack(|data|, DefaultX(n)) <= 1 && IsEncoding(word, data, DefaultX(n), n)
    requires FromWord(replies, id, word)
    ensures |Holders(replies, id)| >= DefaultX(n)
    ensures r == data <==> HoldersComeBack(replies, id, data, DefaultX(n))
  {
    hide Tables.Valid, RSDecoder.Valid, IsEncoding, Lack, HoldersComeBack, FromWord, Gathered;
    hide Reachable, Granted, Synod.ChosenAt, ValidConfig;
    ghost var acks := d.nodes[i].proposers[slot].proposer.ackPrepare[m.node := m];
    AcksOfNodes(cfg, d, i, slot, m);
    ChosenSharesSuffice(cfg, d, i, slot, m, b, v);
    assert Holders(replies, id) == Shares(acks, id);
    var blocks, have, lost := Gather(replies, id, n);
    var decoder := new RSDecoder(t, DefaultX(n), n);
    r := Decode(decoder, replies, id, blocks, have, lost, data, word);
  }
}
