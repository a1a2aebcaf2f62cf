/** What every step of one node keeps: its log, its window and queue, and its ids. */
module CaptainInvariant {
  import opened PaxosTypes
  import opened Acceptors
  import opened Proposers
  import opened CaptainSpec

  // ---------------------------------------------------------------- the log

  /** The frontier is the longest prefix without a hole, and each slot up to it was called back once, in order. */
  ghost predicate LogOk(c: CaptainState) {
    var log := c.chosenValues;
    |log| >= 1 && log[0].None? && (|log| > 1 ==> log[|log| - 1].Some?) &&
    |c.callbacks| == c.maxFrontier < |log| &&
    (forall j :: 1 <= j <= c.maxFrontier ==> log[j] == Some(c.callbacks[j - 1])) &&
    (c.maxFrontier + 1 < |log| ==> log[c.maxFrontier + 1].None?)
  }

  /** Filled slots are not overwritten and callbacks are only added at the end. */
  ghost predicate LogGrows(c: CaptainState, c': CaptainState) {
    |c.chosenValues| <= |c'.chosenValues| && c.callbacks <= c'.callbacks &&
    forall j :: 0 <= j < |c.chosenValues| && c.chosenValues[j].Some? ==> c'.chosenValues[j] == c.chosenValues[j]
  }

  lemma {:induction false} FrontierStops(log: seq<Option<PropValue>>, h: nat)
    requires h < |log|
    ensures Frontier(log, h) < |log|
    ensures Frontier(log, h) + 1 < |log| ==> log[Frontier(log, h) + 1].None?
    decreases |log| - h
  {
    if h + 1 < |log| && log[h + 1].Some? {
      FrontierStops(log, h + 1);
    }
  }

  lemma {:induction false} DueValues(log: seq<Option<PropValue>>, h: nat)
    requires h < |log|
    ensures forall j :: h < j <= Frontier(log, h) ==> j < |log| && log[j] == Some(Due(log, h)[j - h - 1])
    decreases |log| - h
  {
    FrontierStops(log, h);
    if h + 1 < |log| && log[h + 1].Some? {
      DueValues(log, h + 1);
      var rest := Due(log, h + 1);
      forall j | h < j <= Frontier(log, h)
        ensures log[j] == Some(Due(log, h)[j - h - 1])
      {
        if j > h + 1 { assert Due(log, h)[j - h - 1] == rest[j - (h + 1) - 1]; }
      }
    }
  }

  /** What the log holds for a slot. */
  function LogAt(c: CaptainState, slot: nat): Option<PropValue> {
    if slot < |c.chosenValues| then c.chosenValues[slot] else None
  }

  lemma AddChosenLog(c: CaptainState, slot: nat, v: PropValue)
    requires LogOk(c) && slot >= 1
    ensures LogOk(AddChosen(c, slot, v)) && LogGrows(c, AddChosen(c, slot, v))
    ensures forall j: nat ::
      LogAt(AddChosen(c, slot, v), j) == if j == slot && LogAt(c, j).None? then Some(v) else LogAt(c, j)
  {
    hide Frontier, Due;
    var log, log' := c.chosenValues, Filled(c.chosenValues, slot, v);
    var d := AddChosen(c, slot, v);
    FrontierStops(log', c.maxFrontier);
    DueValues(log', c.maxFrontier);
    forall j | 1 <= j <= d.maxFrontier
      ensures log'[j] == Some(d.callbacks[j - 1])
    {}
  }

  // ---------------------------------------------------------------- any sequence of additions

  datatype Learned = Learned(slot: nat, value: PropValue)

  function AddAll(c: CaptainState, calls: seq<Learned>): CaptainState {
    if calls == [] then c
    else AddChosen(AddAll(c, calls[..|calls| - 1]), calls[|calls| - 1].slot, calls[|calls| - 1].value)
  }

  /** The first value added for a slot. */
  function FirstFor(calls: seq<Learned>, slot: nat): Option<PropValue> {
    if calls == [] then None
    else if calls[0].slot == slot then Some(calls[0].value)
    else FirstFor(calls[1..], slot)
  }

  lemma {:induction false} FirstForLast(calls: seq<Learned>, slot: nat)
    requires calls != []
    ensures var before := FirstFor(calls[..|calls| - 1], slot); var last := calls[|calls| - 1];
      FirstFor(calls, slot) == if before.Some? then before else if last.slot == slot then Some(last.value) else None
  {
    if |calls| > 1 && calls[0].slot != slot {
      FirstForLast(calls[1..], slot);
      assert calls[1..][..|calls[1..]| - 1] == calls[..|calls| - 1][1..];
    }
  }

  /**
   After any additions to an empty log, each slot holds exactly the first value added for it,
   the log ends at the last slot added, and the callbacks are the values of the slots 1, 2, ...
   up to the first hole.
   */
  lemma {:induction false} LogOfAdditions(view: View, calls: seq<Learned>)
    requires forall k :: 0 <= k < |calls| ==> calls[k].slot >= 1
    ensures var c := AddAll(InitialCaptain(view), calls);
      LogOk(c) && forall slot: nat :: LogAt(c, slot) == FirstFor(calls, slot)
  {
    hide FirstFor, AddChosen;
    if calls == [] {
      assert forall slot :: FirstFor(calls, slot) == None by { NothingAdded(); }
    } else {
      var before, last := calls[..|calls| - 1], calls[|calls| - 1];
      LogOfAdditions(view, before);
      var b := AddAll(InitialCaptain(view), before);
      AddChosenLog(b, last.slot, last.value);
      var c := AddChosen(b, last.slot, last.value);
      forall slot: nat
        ensures LogAt(c, slot) == FirstFor(calls, slot)
      {
        FirstForLast(calls, slot);
      }
    }
  }

  lemma NothingAdded()
    ensures forall slot :: FirstFor([], slot) == None
  {}

  // ---------------------------------------------------------------- the window and the queue

  /** The values proposed for the first time, in the order of their slots. */
  function FirstProposed(ps: seq<Proposal>): seq<PropValue> {
    if ps == [] then []
    else FirstProposed(ps[..|ps| - 1]) + if ps[|ps| - 1].tryTime == 1 then [ps[|ps| - 1].value] else []
  }

  /** The initial values of the proposers of the slots 1 to `k`. */
  ghost function Active(ps: map<nat, InfoState>, k: nat): multiset<PropValue> {
    if k == 0 then multiset{}
    else Active(ps, k - 1) + if k in ps then multiset{ps[k].proposer.initValue} else multiset{}
  }

  /** Every proposer sits in a slot it was started for. */
  ghost predicate SlotsOk(view: View, c: CaptainState) {
    |c.proposals| == c.maxSlot && (c.maxSlot > 0 ==> view.master == view.whoami && view.window > 0) &&
    forall s :: s in c.proposers ==> (1 <= s <= c.maxSlot && c.proposers[s].tryTime >= 1 &&
      c.proposals[s - 1] == Proposal(c.proposers[s].proposer.initValue, c.proposers[s].tryTime))
  }

  /** Never more proposers than the window allows, and no value waits while there is room. */
  ghost predicate WindowOk(view: View, c: CaptainState) {
    |c.proposers| <= view.window && (c.toCommit != [] ==> |c.proposers| == view.window)
  }

  /** Values are first proposed in the order they were committed. */
  ghost predicate OrderOk(c: CaptainState) {
    c.committed == FirstProposed(c.proposals) + c.toCommit
  }

  /** Each committed value waits, is active in one slot, or was reported to its client. */
  ghost predicate ConservationOk(c: CaptainState) {
    multiset(c.committed) == multiset(c.toCommit) + Active(c.proposers, c.maxSlot) + multiset(c.informed)
  }

  ghost predicate QueueOk(view: View, c: CaptainState) {
    SlotsOk(view, c) && WindowOk(view, c) && OrderOk(c) && ConservationOk(c)
  }

  /** There is room, and one value is in nobody's hands: about to be started for the `tryTime`th time. */
  ghost predicate Pending(view: View, c: CaptainState, v: PropValue, tryTime: nat) {
    SlotsOk(view, c) && view.master == view.whoami && tryTime >= 1 &&
    |c.proposers| < view.window && (c.toCommit != [] ==> |c.proposers| + 1 == view.window) &&
    c.committed == FirstProposed(c.proposals) + (if tryTime == 1 then [v] else []) + c.toCommit &&
    multiset(c.committed) == multiset(c.toCommit) + Active(c.proposers, c.maxSlot) + multiset(c.informed) + multiset{v}
  }

  lemma {:induction false} ActiveSame(ps: map<nat, InfoState>, ps': map<nat, InfoState>, k: nat)
    requires forall s: nat :: s <= k ==> (s in ps <==> s in ps')
    requires forall s: nat :: s <= k && s in ps ==> ps[s].proposer.initValue == ps'[s].proposer.initValue
    ensures Active(ps, k) == Active(ps', k)
  {
    if k > 0 {
      ActiveSame(ps, ps', k - 1);
    }
  }

  lemma {:induction false} ActiveRemoved(ps: map<nat, InfoState>, s: nat, k: nat)
    requires s in ps && 1 <= s <= k
    ensures Active(ps, k) == Active(ps - {s}, k) + multiset{ps[s].proposer.initValue}
  {
    if s == k {
      ActiveSame(ps, ps - {s}, k - 1);
    } else {
      ActiveRemoved(ps, s, k - 1);
    }
  }

  function Started(c: CaptainState, info: InfoState): CaptainState {
    c.(maxSlot := c.maxSlot + 1, proposers := c.proposers[c.maxSlot + 1 := info],
       proposals := c.proposals + [Proposal(info.proposer.initValue, info.tryTime)])
  }

  lemma StartedBooks(view: View, c: CaptainState, v: PropValue, tryTime: nat, info: InfoState)
    requires Pending(view, c, v, tryTime) && info.proposer.initValue == v && info.tryTime == tryTime
    ensures QueueOk(view, Started(c, info))
  {
    hide Active, FirstProposed, SlotsOk;
    StartedSlots(view, c, info);
    ActiveAdded(c.proposers, c.maxSlot + 1, info);
    FirstProposedAdded(c.proposals, Proposal(v, tryTime));
  }

  lemma StartedSlots(view: View, c: CaptainState, info: InfoState)
    requires SlotsOk(view, c) && view.master == view.whoami && view.window > 0 && info.tryTime >= 1
    ensures SlotsOk(view, Started(c, info)) && |Started(c, info).proposers| == |c.proposers| + 1
  {}

  lemma ActiveAdded(ps: map<nat, InfoState>, k: nat, info: InfoState)
    requires k >= 1
    ensures Active(ps[k := info], k) == Active(ps, k - 1) + multiset{info.proposer.initValue}
  {
    ActiveSame(ps[k := info], ps, k - 1);
  }

  lemma FirstProposedAdded(ps: seq<Proposal>, p: Proposal)
    ensures FirstProposed(ps + [p]) == FirstProposed(ps) + if p.tryTime == 1 then [p.value] else []
  {
    assert (ps + [p])[..|ps + [p]| - 1] == ps;
  }

  lemma StartNewBooks(view: View, c: CaptainState, v: PropValue)
    requires Pending(view, c, v, 1)
    ensures QueueOk(view, StartNew(view, c, v).state)
  {
    hide Pending, QueueOk;
    var p := Prepared(NewProposer(v), view.whoami);
    StartedBooks(view, c, v, 1, InfoState(1, p, INIT));
    StartedBooks(view, c, v, 1, InfoState(1, p.(currValue := Some(v)), PHASEII));
  }

  lemma StartPrepareBooks(view: View, c: CaptainState, v: PropValue, tryTime: nat)
    requires Pending(view, c, v, tryTime)
    ensures QueueOk(view, StartPrepare(view, c, v, tryTime).state)
  {
    hide Pending, QueueOk;
    StartedBooks(view, c, v, tryTime, InfoState(tryTime, Prepared(NewProposer(v), view.whoami), INIT));
  }

  lemma CommitValueBooks(view: View, c: CaptainState, v: PropValue)
    requires QueueOk(view, c) && view.master == view.whoami
    ensures QueueOk(view, CommitValue(view, c, v).state)
  {
    hide Active, FirstProposed, StartNew;
    var d := c.(committed := c.committed + [v]);
    assert multiset(d.committed) == multiset(c.committed) + multiset{v};
    if |c.proposers| == view.window {
      var q := c.toCommit + [v];
      assert multiset(q) == multiset(c.toCommit) + multiset{v};
    } else {
      assert d.committed == FirstProposed(d.proposals) + [v] + d.toCommit;
      StartNewBooks(view, d, v);
    }
  }

  /** A finished proposer leaves its slot: there is room, and its value is nobody's. */
  lemma RemovedBooks(view: View, c: CaptainState, slot: nat)
    requires SlotsOk(view, c) && WindowOk(view, c) && slot in c.proposers
    ensures var d := c.(proposers := c.proposers - {slot}); var init := c.proposers[slot].proposer.initValue;
      SlotsOk(view, d) && |d.proposers| == |c.proposers| - 1 &&
      Active(c.proposers, c.maxSlot) == Active(d.proposers, d.maxSlot) + multiset{init}
  {
    hide Active, FirstProposed;
    var d := c.(proposers := c.proposers - {slot});
    ActiveRemoved(c.proposers, slot, c.maxSlot);
    assert d.proposers.Keys == c.proposers.Keys - {slot};
    assert |d.proposers.Keys| == |d.proposers|;
  }

  lemma TakenAway(a: multiset<PropValue>, b: multiset<PropValue>, c: multiset<PropValue>, d: multiset<PropValue>,
      v: PropValue)
    requires a + multiset{v} == b + (c + multiset{v}) + d
    ensures a == b + c + d
  {
    assert a == (a + multiset{v}) - multiset{v};
  }

  /** The oldest waiting value takes a free place. */
  lemma NextWaitingBooks(view: View, d: CaptainState)
    requires SlotsOk(view, d) && OrderOk(d) && ConservationOk(d) && d.toCommit != []
    requires |d.proposers| + 1 == view.window && view.master == view.whoami
    ensures QueueOk(view, StartNew(view, d.(toCommit := d.toCommit[1..]), d.toCommit[0]).state)
  {
    hide Active, FirstProposed, StartNew;
    var e := d.(toCommit := d.toCommit[1..]);
    assert d.toCommit == [d.toCommit[0]] + d.toCommit[1..];
    assert e.committed == FirstProposed(e.proposals) + [d.toCommit[0]] + e.toCommit;
    assert multiset(d.toCommit) == multiset{d.toCommit[0]} + multiset(e.toCommit);
    StartNewBooks(view, e, d.toCommit[0]);
  }

  /** The value was chosen, and its client told: there is room for a waiting value. */
  lemma ReplaceOwnBooks(view: View, c: CaptainState, slot: nat, info: InfoState, v: PropValue)
    requires SlotsOk(view, c) && WindowOk(view, c) && OrderOk(c)
    requires slot in c.proposers && c.proposers[slot].proposer.initValue == info.proposer.initValue
    requires v.id == info.proposer.initValue.id
    requires multiset(c.committed) + multiset{info.proposer.initValue} ==
      multiset(c.toCommit) + Active(c.proposers, c.maxSlot) + multiset(c.informed)
    ensures QueueOk(view, Replace(view, c, slot, info, v).state)
  {
    hide Active, FirstProposed, StartNew, SlotsOk;
    var d := c.(proposers := c.proposers - {slot});
    RemovedBooks(view, c, slot);
    TakenAway(multiset(c.committed), multiset(c.toCommit), Active(d.proposers, d.maxSlot), multiset(c.informed),
      info.proposer.initValue);
    if d.toCommit != [] {
      StartersAreMasters(view, c, slot);
      NextWaitingBooks(view, d);
    }
  }

  lemma StartersAreMasters(view: View, c: CaptainState, slot: nat)
    requires SlotsOk(view, c) && slot in c.proposers
    ensures view.master == view.whoami
  {}

  /** Another value was chosen: the own value takes the free place again, in a fresh slot. */
  lemma ReplaceLosingBooks(view: View, c: CaptainState, slot: nat, info: InfoState, v: PropValue)
    requires QueueOk(view, c) && slot in c.proposers && v.id != info.proposer.initValue.id
    requires c.proposers[slot].proposer.initValue == info.proposer.initValue
    requires c.proposers[slot].tryTime == info.tryTime
    ensures QueueOk(view, Replace(view, c, slot, info, v).state)
  {
    hide Active, FirstProposed, StartPrepare;
    var d := c.(proposers := c.proposers - {slot});
    RemovedBooks(view, c, slot);
    assert d.committed == FirstProposed(d.proposals) + [] + d.toCommit;
    StartPrepareBooks(view, d, info.proposer.initValue, info.tryTime + 1);
  }

  /** A proposer that stays in its slot with its initial value changes no book. */
  lemma UpdatedBooks(view: View, c: CaptainState, slot: nat, info: InfoState)
    requires QueueOk(view, c) && slot in c.proposers
    requires info.proposer.initValue == c.proposers[slot].proposer.initValue
    requires info.tryTime == c.proposers[slot].tryTime
    ensures QueueOk(view, c.(proposers := c.proposers[slot := info]))
  {
    hide Active, FirstProposed;
    ActiveSame(c.proposers, c.proposers[slot := info], c.maxSlot);
    assert c.proposers[slot := info].Keys == c.proposers.Keys;
  }

  // ---------------------------------------------------------------- every input keeps the books

  /** The ids of a node: its number in the low bits, a counter above. */
  ghost predicate IdsOk(view: View, c: CaptainState) {
    c.valueId == |c.issued| * NODE_SPAN + view.whoami &&
    forall k :: 0 <= k < |c.issued| ==> c.issued[k].id == (k + 1) * NODE_SPAN + view.whoami
  }

  ghost predicate NodeInv(view: View, c: CaptainState) {
    LogOk(c) && QueueOk(view, c) && IdsOk(view, c)
  }

  /** What a node never forgets. */
  ghost predicate NodeGrows(c: CaptainState, c': CaptainState) {
    LogGrows(c, c') && c.committed <= c'.committed && c.proposals <= c'.proposals && c.issued <= c'.issued
  }

  lemma InitialNodeInv(view: View)
    ensures NodeInv(view, InitialCaptain(view))
  {}

  /** Fields the books do not mention. */
  lemma SameBooks(view: View, c: CaptainState, d: CaptainState)
    requires QueueOk(view, c) && d.proposers == c.proposers && d.maxSlot == c.maxSlot && d.toCommit == c.toCommit
    requires d.informed == c.informed && d.committed == c.committed && d.proposals == c.proposals
    ensures QueueOk(view, d)
  {
    hide Active, FirstProposed;
  }

  /** Starting values and queueing them leaves the log and the issued values alone. */
  lemma CommitValueKeeps(view: View, c: CaptainState, v: PropValue)
    requires WindowOk(view, c)
    ensures var d := CommitValue(view, c, v).state;
      d.chosenValues == c.chosenValues && d.maxFrontier == c.maxFrontier && d.callbacks == c.callbacks &&
      d.issued == c.issued && d.valueId == c.valueId && d.committed == c.committed + [v] && c.proposals <= d.proposals
  {}

  lemma LocalCommitInv(view: View, c: CaptainState, data: string)
    requires NodeInv(view, c)
    ensures var d := LocalCommit(view, c, data).state; NodeInv(view, d) && NodeGrows(c, d)
  {
    hide QueueOk, CommitValue;
    var id := c.valueId + NODE_SPAN;
    var v := PropValue(id, data);
    var d := c.(valueId := id, issued := c.issued + [v]);
    SameBooks(view, c, d);
    assert IdsOk(view, d);
    if view.whoami == view.master {
      CommitValueBooks(view, d, v);
      WindowOfBooks(view, d);
      CommitValueKeeps(view, d, v);
    }
  }

  lemma WindowOfBooks(view: View, c: CaptainState)
    requires QueueOk(view, c)
    ensures WindowOk(view, c)
  {}

  lemma OnCommitInv(view: View, c: CaptainState, from: nat, v: PropValue)
    requires NodeInv(view, c)
    ensures var d := OnCommit(view, c, from, v).state; NodeInv(view, d) && NodeGrows(c, d)
  {
    hide QueueOk, CommitValue;
    if view.whoami == view.master {
      CommitValueBooks(view, c, v);
      WindowOfBooks(view, c);
      CommitValueKeeps(view, c, v);
    }
  }

  lemma OnPromiseInv(view: View, c: CaptainState, slot: nat, m: PromiseAck)
    requires NodeInv(view, c)
    ensures var d := OnPromise(view, c, slot, m).state; NodeInv(view, d) && NodeGrows(c, d)
  {
    hide QueueOk, AfterPromise, LogOk;
    if slot in c.proposers {
      var info := c.proposers[slot];
      var (p, r) := AfterPromise(view, info.proposer, m);
      PromiseKeepsInit(view, info.proposer, m);
      UpdatedBooks(view, c, slot, info.(proposer := p, status := PHASEII));
      UpdatedBooks(view, c, slot, info.(proposer := p, status := PHASEI));
      UpdatedBooks(view, c, slot, info.(proposer := Restarted(p, view.whoami), status := INIT));
      SameLog(c, OnPromise(view, c, slot, m).state);
    }
  }

  lemma SameLog(c: CaptainState, d: CaptainState)
    requires LogOk(c) && d.chosenValues == c.chosenValues && d.maxFrontier == c.maxFrontier
    requires d.callbacks == c.callbacks
    ensures LogOk(d) && LogGrows(c, d)
  {}

  lemma PromiseKeepsInit(view: View, p: ProposerState, m: PromiseAck)
    ensures AfterPromise(view, p, m).0.initValue == p.initValue
  {
    hide Highest, Granted, Shares;
  }

  lemma OnAcceptedInv(view: View, c: CaptainState, slot: nat, m: AcceptAck)
    requires NodeInv(view, c)
    ensures var d := OnAccepted(view, c, slot, m).state; NodeInv(view, d) && NodeGrows(c, d)
  {
    hide QueueOk, AfterAccepted, LogOk, LogGrows, Announce, Replace;
    if slot in c.proposers && c.proposers[slot].status.PHASEII? {
      var info := c.proposers[slot];
      var (p, r) := AfterAccepted(view, info.proposer, m);
      VoteKeeps(view, info.proposer, m);
      UpdatedBooks(view, c, slot, info.(proposer := p));
      UpdatedBooks(view, c, slot, info.(proposer := p, status := CHOSEN));
      UpdatedBooks(view, c, slot, info.(proposer := Restarted(p, view.whoami), status := INIT));
      var d := c.(proposers := c.proposers[slot := info.(proposer := p, status := CHOSEN)]);
      SameLog(c, d);
      if r == CHOOSE && p.currValue.Some? {
        ChooseInv(view, d, slot, info, p.currValue.value);
        LogGrowsOn(c, d, OnAccepted(view, c, slot, m).state);
      } else {
        SameLog(c, OnAccepted(view, c, slot, m).state);
      }
    } else {
      SameLog(c, c);
    }
  }

  lemma LogGrowsOn(c: CaptainState, d: CaptainState, e: CaptainState)
    requires LogGrows(c, d) && LogGrows(d, e)
    ensures LogGrows(c, e)
  {}

  lemma VoteKeeps(view: View, p: ProposerState, m: AcceptAck)
    ensures AfterAccepted(view, p, m).0.initValue == p.initValue
  {}

  /** The end of a proposer: the log grows, the client is told if it was its value, and the place is taken again. */
  lemma ChooseInv(view: View, c: CaptainState, slot: nat, info: InfoState, v: PropValue)
    requires NodeInv(view, c) && slot in c.proposers
    requires c.proposers[slot].proposer.initValue == info.proposer.initValue
    requires c.proposers[slot].tryTime == info.tryTime
    ensures var d := Replace(view, Announce(view, c, slot, info, v).state, slot, info, v).state;
      NodeInv(view, d) && NodeGrows(c, d)
  {
    hide Replace, QueueOk, AddChosen;
    var e := Told(c, info, v);
    SlotOfProposer(view, c, slot);
    var d := AddChosen(e, slot, v);
    assert d == Announce(view, c, slot, info, v).state;
    AddChosenLog(e, slot, v);
    AddChosenKeeps(e, slot, v);
    AnnouncedBooks(view, c, d, slot, info, v);
    ReplaceKeeps(view, d, slot, info, v);
  }

  lemma SlotOfProposer(view: View, c: CaptainState, slot: nat)
    requires QueueOk(view, c) && slot in c.proposers
    ensures slot >= 1
  {}

  /** The client of the own value is told. */
  function Told(c: CaptainState, info: InfoState, v: PropValue): CaptainState {
    if v.id == info.proposer.initValue.id then c.(informed := c.informed + [info.proposer.initValue]) else c
  }

  lemma AnnouncedBooks(view: View, c: CaptainState, d: CaptainState, slot: nat, info: InfoState, v: PropValue)
    requires QueueOk(view, c) && slot in c.proposers
    requires c.proposers[slot].proposer.initValue == info.proposer.initValue
    requires c.proposers[slot].tryTime == info.tryTime
    requires d.proposers == c.proposers && d.maxSlot == c.maxSlot && d.toCommit == c.toCommit
    requires d.informed == Told(c, info, v).informed && d.committed == c.committed && d.proposals == c.proposals
    ensures QueueOk(view, Replace(view, d, slot, info, v).state)
  {
    hide Replace, Active, FirstProposed;
    if v.id == info.proposer.initValue.id {
      ReplaceOwnBooks(view, d, slot, info, v);
    } else {
      SameBooks(view, c, d);
      ReplaceLosingBooks(view, d, slot, info, v);
    }
  }

  lemma AddChosenKeeps(c: CaptainState, slot: nat, v: PropValue)
    ensures var d := AddChosen(c, slot, v);
      d == c.(chosenValues := d.chosenValues, maxFrontier := d.maxFrontier, callbacks := d.callbacks)
  {}

  lemma ReplaceKeeps(view: View, c: CaptainState, slot: nat, info: InfoState, v: PropValue)
    ensures var d := Replace(view, c, slot, info, v).state;
      d.chosenValues == c.chosenValues && d.maxFrontier == c.maxFrontier && d.callbacks == c.callbacks &&
      d.issued == c.issued && d.valueId == c.valueId && d.committed == c.committed && c.proposals <= d.proposals
  {}

  lemma LearnInv(view: View, c: CaptainState, slot: nat, v: PropValue)
    requires NodeInv(view, c) && slot >= 1
    ensures NodeInv(view, AddChosen(c, slot, v)) && NodeGrows(c, AddChosen(c, slot, v))
  {
    hide QueueOk, AddChosen;
    AddChosenLog(c, slot, v);
    AddChosenKeeps(c, slot, v);
    SameBooks(view, c, AddChosen(c, slot, v));
  }

  lemma HandleMsgInv(view: View, c: CaptainState, m: Message)
    requires NodeInv(view, c) && SlotNumbered(m)
    ensures var d := HandleMsg(view, c, m).state; NodeInv(view, d) && NodeGrows(c, d)
  {
    hide QueueOk, OnPromise, OnAccepted, OnCommit, AddChosen;
    if c.work {
      match m
      case Promise(to, slot, ack) => OnPromiseInv(view, c, slot, ack);
      case Accepted(to, slot, ack) => OnAcceptedInv(view, c, slot, ack);
      case Decide(node, slot, valueId) =>
        if AcceptorAt(c, slot).maxValue.Some? { LearnInv(view, c, slot, AcceptorAt(c, slot).maxValue.value); }
      case Teach(node, slot, v) => LearnInv(view, c, slot, v);
      case Commit(node, v) => OnCommitInv(view, c, node, v);
      case _ => SameBooks(view, c, HandleMsg(view, c, m).state);
    }
  }
}
