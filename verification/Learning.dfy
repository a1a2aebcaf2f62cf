/** Which values a node learns, and where every value comes from. */
module Learning {
  import opened PaxosTypes
  import opened Acceptors
  import opened Proposers
  import opened CaptainSpec
  import opened CaptainInvariant

  // ---------------------------------------------------------------- what enters the log

  /** Why a node may take the value for the chosen one of the slot. */
  ghost predicate Justified(view: View, c: CaptainState, m: Message, slot: nat, v: PropValue) {
    match m
    case Accepted(_, s, ack) =>
      s == slot && s in c.proposers && c.proposers[s].proposer.currValue == Some(v) &&
      AfterAccepted(view, c.proposers[s].proposer, ack).1 == CHOOSE
    case Decide(_, s, id) => s == slot && AcceptorAt(c, s).maxValue == Some(v) && v.id == id
    case Teach(_, s, w) => s == slot && w == v
    case _ => false
  }

  /** An entry of the log stays, or was justified by the message at hand. */
  ghost predicate EntryOk(view: View, c: CaptainState, m: Message, c': CaptainState, slot: nat) {
    LogAt(c', slot) == LogAt(c, slot) ||
    (LogAt(c, slot).None? && LogAt(c', slot).Some? && Justified(view, c, m, slot, LogAt(c', slot).value))
  }

  /** What is announced about chosen values is justified, or is in the log. */
  ghost predicate AnnouncementOk(view: View, c: CaptainState, m: Message, c': CaptainState, sent: Message) {
    match sent
    case Decide(_, s, id) => exists v :: Justified(view, c, m, s, v) && v.id == id
    case Teach(_, s, v) => LogAt(c', s) == Some(v)
    case _ => true
  }

  ghost predicate LearnsOk(view: View, c: CaptainState, m: Message, o: Outcome) {
    (forall slot: nat :: EntryOk(view, c, m, o.state, slot)) &&
    (forall x :: x in o.sent ==> AnnouncementOk(view, c, m, o.state, x))
  }

  lemma OnAcceptedLearns(view: View, c: CaptainState, slot: nat, ack: AcceptAck, to: nat)
    requires NodeInv(view, c) && slot >= 1
    ensures LearnsOk(view, c, Accepted(to, slot, ack), OnAccepted(view, c, slot, ack))
  {
    hide NodeInv, AfterAccepted, Announce, Replace, Restarted, LogAt;
    var m, o := Accepted(to, slot, ack), OnAccepted(view, c, slot, ack);
    if slot in c.proposers && c.proposers[slot].status.PHASEII? {
      var info := c.proposers[slot];
      var (p, r) := AfterAccepted(view, info.proposer, ack);
      CurrValueStays(view, info.proposer, ack);
      if r == CHOOSE && p.currValue.Some? {
        var v := p.currValue.value;
        var d := c.(proposers := c.proposers[slot := info.(proposer := p, status := CHOSEN)]);
        var a := Announce(view, d, slot, info, v);
        var b := Replace(view, a.state, slot, info, v);
        assert Justified(view, c, m, slot, v);
        AnnounceLearns(view, d, slot, info, v) by { SameLogOk(view, c, d); }
        ReplaceSays(view, a.state, slot, info, v);
        SameEntries(d, c);
        SameEntries(b.state, a.state);
        forall x | x in o.sent
          ensures AnnouncementOk(view, c, m, o.state, x)
        {
          if x in a.sent {
            assert x.Decide? ==> Justified(view, c, m, slot, v) && v.id == x.valueId;
          }
        }
      } else {
        SameEntries(o.state, c);
      }
    } else {
      SameEntries(o.state, c);
    }
  }

  lemma SameLogOk(view: View, c: CaptainState, d: CaptainState)
    requires NodeInv(view, c) && d.chosenValues == c.chosenValues && d.maxFrontier == c.maxFrontier
    requires d.callbacks == c.callbacks
    ensures LogOk(d)
  {}

  lemma SameEntries(d: CaptainState, c: CaptainState)
    requires d.chosenValues == c.chosenValues
    ensures forall slot: nat :: LogAt(d, slot) == LogAt(c, slot)
  {}

  lemma CurrValueStays(view: View, p: ProposerState, m: AcceptAck)
    ensures AfterAccepted(view, p, m).0.currValue == p.currValue
  {}

  lemma AnnounceLearns(view: View, c: CaptainState, slot: nat, info: InfoState, v: PropValue)
    requires LogOk(c) && slot >= 1
    ensures var o := Announce(view, c, slot, info, v);
      (forall j: nat :: LogAt(o.state, j) == if j == slot && LogAt(c, j).None? then Some(v) else LogAt(c, j)) &&
      (forall x :: x in o.sent ==>
        x == Decide(view.whoami, slot, v.id) || (x.Teach? && x.slot == slot && LogAt(o.state, slot) == Some(x.value)))
  {
    hide AddChosen;
    var e := Told(c, info, v);
    AddChosenLog(e, slot, v);
    SameEntries(e, c);
    assert AddChosen(e, slot, v) == Announce(view, c, slot, info, v).state;
  }

  lemma ReplaceSays(view: View, c: CaptainState, slot: nat, info: InfoState, v: PropValue)
    ensures var o := Replace(view, c, slot, info, v);
      o.state.chosenValues == c.chosenValues && forall x :: x in o.sent ==> x.Prepare? || x.Accept?
  {}

  lemma CommitValueSays(view: View, c: CaptainState, v: PropValue)
    ensures var o := CommitValue(view, c, v);
      o.state.chosenValues == c.chosenValues && forall x :: x in o.sent ==> x.Prepare? || x.Accept?
  {}

  lemma HandleMsgLearns(view: View, c: CaptainState, m: Message)
    requires NodeInv(view, c) && SlotNumbered(m)
    ensures LearnsOk(view, c, m, HandleMsg(view, c, m))
  {
    hide NodeInv, OnAccepted, AfterPromise, CommitValue, AddChosen, LogAt, Justified;
    var o := HandleMsg(view, c, m);
    if !c.work {
    } else if m.Accepted? {
      OnAcceptedLearns(view, c, m.slot, m.ack, m.to);
    } else if m.Decide? || m.Teach? {
      AdoptLearns(view, c, m);
    } else if m.Learn? {
      LogEntry(c, m.slot);
    } else {
      if m.Commit? { CommitValueSays(view, c, m.value); }
      SameEntries(o.state, c);
    }
  }

  lemma LogEntry(c: CaptainState, slot: nat)
    ensures IsChosen(c, slot) <==> LogAt(c, slot).Some?
    ensures IsChosen(c, slot) ==> LogAt(c, slot) == c.chosenValues[slot]
  {}

  lemma AdoptLearns(view: View, c: CaptainState, m: Message)
    requires NodeInv(view, c) && (m.Decide? || m.Teach?) && m.slot >= 1 && c.work
    ensures LearnsOk(view, c, m, HandleMsg(view, c, m))
  {
    hide AddChosen, LogAt;
    if m.Teach? {
      AddChosenLog(c, m.slot, m.value);
    } else if AcceptorAt(c, m.slot).maxValue.Some? {
      AddChosenLog(c, m.slot, AcceptorAt(c, m.slot).maxValue.value);
    }
  }
}
