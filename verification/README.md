# libndnpaxos in Dafny

libndnpaxos replicates a log of values over NDN with Paxos, optionally storing values as shares of
a Reed-Solomon code (libzfec). This project models its three stateful cores and proves what they
are for.

**Paxos** (`PaxosTypes`, `Acceptor`, `Proposer`, `CaptainSpec`, `Captain`, `View` and the proofs).
Each log slot runs single-decree Paxos. `Acceptor`, `Proposer` and `Captain` are classes whose
methods update fields as the original does. Each method is proved against a function from old
state and input to new state and sent messages (`CaptainSpec` for a whole node). The properties are
then proved about these functions:

- `Synod` takes one slot on its own: any number of acceptors and proposers around a growing set of
  sent messages. A message may be handled never, late, twice or out of order. `SynodInvariant`
  holds the safe-at-ballot invariant. A restart keeps the highest report of earlier rounds, so the
  value of a later round may come from outside its quorum; the invariant covers that.
  `SynodAgreement` concludes agreement.
- `Protocol` takes the whole system: a sequence of nodes, the message set, and the events commit,
  deliver and crash. `SlotRefinement` shows that each event is a step of each slot, so that
  `SystemInvariant` can lift the slots' invariants. `Replication` states the theorems over all
  runs.
- `ProposerAnswers`, `SlotStarts` and `CatchUp` say what operations get done: which answer a promise
  gets, how slots are started and why a prepare request is ever sent in Multi mode, and that a node can
  learn whatever it has missed. In RS mode a promise quorum that mixes replies with and without the
  reported value always starts over; with neither one id nor emptiness at a quorum of acceptors, no
  quorum lets a new proposer go on.
- `CaptainInvariant`, `Learning` and `ValueOrigin` hold what one node keeps on its own: the log
  frontier, the window and the queue, and where values come from.
- `MultiMode` shows that skipping the first phase in leased slots refines doing it.
- `AtMostOnce` and `ForwardedCommits` hold when a value is chosen once: as long as no master handles
  two requests for it. `DuplicatedCommit` is a small run in which that fails. `RepeatedCommit` says of
  every configuration whether some run fails, and `TwoMasters` does so for agreement; both build their
  runs with `Progress`, in which a proposer that is left alone gets through.
- `ShareRecovery` joins the promises of RS mode with the decoder.

**The erasure code** (`GaloisField` up to `ReedSolomon`, `InverseFacts`). The tables, the
Vandermonde and Gauss-Jordan inversions, the generator matrix, encoder and decoder work in place on
arrays with the original's loops; the algebra behind them is proved from the shift-and-reduce
recurrence up. The result: any k distinct surviving blocks give back the data. Three things about the
code come out on the way. `rs_decode` reads the block size from block 0 and so needs it, and needs the
last primary block where that is short, as a rebuilt one is not cut. A decoder puts its result behind
those of earlier calls. An encoder does so too, so a proposer that has sent out shares of its own value
and then decodes another one sends the old shares under the new id.

**The thread pool** (`ThreadPool`). The monitor of the bundled pool as a state machine over its
lock-protected sections, with a class whose methods are these sections. `PoolProgress` says that it
grows, starts its tasks and can be brought to an end.

Where code and comments differ, the code is followed: `libndnpaxos/acceptor.cpp:61-69` announces
acceptance strictly above the promised ballot, the code accepts at it as well;
`libzfec/fec.cc:229` announces a return value for singular matrices, the code has none.

## Model

| member | source | states |
|---|---|---|
| `Acceptors.Acceptor.constructor` | libndnpaxos/acceptor.cpp:10-13 | A new acceptor has promised and accepted nothing. |
| `Acceptors.Acceptor.HandleMsgPrepare` | libndnpaxos/acceptor.cpp:27-59 | The handler changes the fields and answers as `PrepareNext` and `PromiseFor` say: granted only strictly above the promised ballot, the accepted ballot always reported, the value only if granted. |
| `Acceptors.Acceptor.HandleMsgAccept` | libndnpaxos/acceptor.cpp:70-101 | The handler accepts from the promised ballot on, moves both ballots, and stores the value unless its id is stored already. |
| `Acceptors.Acceptor.UpdateMaxProposed` | libndnpaxos/acceptor.cpp:107-109 | Only the promised ballot changes. |
| `Proposers.Proposer.constructor` | libndnpaxos/proposer.cpp:12-26 | A new proposer holds its initial value, no ballot, no report and no acks. |
| `Proposers.Proposer.GenNextBallot` | libndnpaxos/proposer.cpp:244-256 | The first ballot carries the node id in the low 16 bits, later ones add to the counter. |
| `Proposers.Proposer.MsgPrepare` | libndnpaxos/proposer.cpp:36-49 | The request carries the next ballot, and nothing else changes. |
| `Proposers.Proposer.RestartMsgPrepare` | libndnpaxos/proposer.cpp:53-59 | A restart forgets the current value and all acks and takes the next ballot, but keeps the highest report. |
| `Proposers.Proposer.MsgAccept` | libndnpaxos/proposer.cpp:62-72 | The request carries the current ballot and value. |
| `Proposers.Proposer.InitCurrValue` | libndnpaxos/proposer.cpp:273-275 | The initial value becomes the current one. |
| `Proposers.Proposer.ScanPromises` | libndnpaxos/proposer.cpp:131-142 | The loop counts exactly the granted promises and ends with the report `Highest` defines over all filed acks, starting from the one kept. |
| `Proposers.Proposer.CountShares` | libndnpaxos/proposer.cpp:154-163 | The count is the number of granted replies whose value has the id. |
| `Proposers.Proposer.HandleMsgPromise` | libndnpaxos/proposer.cpp:113-194 | State and answer are those of `AfterPromise` in every branch: DROP, NOT_ENOUGH, RESTART, CONTINUE, and in RS mode RESTART for too few shares. |
| `Proposers.Proposer.HandleMsgAccepted` | libndnpaxos/proposer.cpp:201-238 | State and answer are those of `AfterAccepted`: DROP, NOT_ENOUGH, CHOOSE with a write quorum of votes, RESTART otherwise. |
| `ProposerAnswers.PromiseAnswer` | libndnpaxos/proposer.cpp:113-194 | Every answer to a promise exactly, in terms of the replies: DROP for a late one or with a value at hand, NOT_ENOUGH below a quorum, CONTINUE if and only if a quorum granted and, in RS mode, at most f nodes sent no granted reply with the reported id, RESTART otherwise; CONTINUE takes over the reported value, or the own one if none is reported. |
| `ProposerAnswers.QuorumContinues` | libndnpaxos/proposer.cpp:144-176 | In RS mode with quorums of all but f nodes, the last reply of a quorum is answered with CONTINUE if and only if all replies are granted and, should a value be reported, all carry its id; any mixture is a RESTART. |
| `ProposerAnswers.NoQuorumContinues` | libndnpaxos/proposer.cpp:144-176 | In RS mode with quorums of all but f nodes, a proposer that has heard of no value gets RESTART from every quorum, as long as fewer than a quorum of acceptors are empty and no id is held by a quorum. |
| `ProposerAnswers.HighestIsTop` | libndnpaxos/proposer.cpp:131-142 | The scan ends with the kept report unless a granted reply has a higher ballot, and then with that of the lowest node among the highest. |
| `SynodInvariant.InitInv` | libndnpaxos/acceptor.cpp:10-13 | The invariant of one slot holds at the start, with or without acceptors preset for a leaseholder. |
| `SynodInvariant.PrepareStepInv` | libndnpaxos/acceptor.cpp:27-59 | An acceptor that answers a prepare request, any number of times and in any order, keeps the invariant of its slot: a granted promise reports the last vote below its ballot. |
| `SynodInvariant.AcceptStepInv` | libndnpaxos/acceptor.cpp:70-101 | An acceptor that answers an accept request keeps the invariant: no vote falls below a promise. |
| `SynodInvariant.HighestCovers` | libndnpaxos/proposer.cpp:131-142 | The scan ends with a report that is at least every granted one, and is either a granted one or the one kept from earlier rounds. |
| `SynodInvariant.ReportIsSafe` | libndnpaxos/proposer.cpp:53-59 | Safe-at with the sticky maximum: with a read quorum for ballot b, no id other than that of the highest report was or can be chosen below b, even if the report is older than the quorum. |
| `SynodInvariant.FirstBallotIsSafe` | libndnpaxos/captain.cpp:183-188 | A node that may skip the first phase proposes at a ballot below which nothing was or can be chosen. |
| `SynodInvariant.PromisedStepInv` | libndnpaxos/proposer.cpp:113-194 | A proposer that handles a promise keeps the invariant, in every branch. |
| `SynodInvariant.VotedStepInv` | libndnpaxos/proposer.cpp:201-238 | A proposer that handles a vote keeps the invariant, in every branch. |
| `SynodInvariant.NextInv` | libndnpaxos/captain.cpp:256-544 | Every step of a slot keeps the invariant: one value for each ballot, every value in the second phase safe at its ballot, promises and votes honoured; and what was promised, sent or accepted stays so. |
| `SynodAgreement.ChosenBelow` | libndnpaxos/proposer.cpp:134-184 | Whatever is proposed above a ballot with a write quorum carries the id that quorum accepted. |
| `SynodAgreement.Agreement` | libndnpaxos/proposer.cpp:113-238 | Agreement of one slot: for any number of nodes and any `qr + qw > n`, two values accepted by write quorums have one id. |
| `SynodAgreement.ChooseIsChosen` | libndnpaxos/proposer.cpp:201-238 | A proposer that answers CHOOSE holds a value a write quorum accepted at its current ballot. |
| `SynodAgreement.VoterReportsChosen` | libndnpaxos/proposer.cpp:148-163 | A promise above a chosen ballot from an acceptor that voted there reports the chosen id, whatever the acceptor accepted since. |
| `SynodAgreement.EnoughShares` | libndnpaxos/proposer.cpp:144-167 | After a value is chosen, every complete promise quorum of a later ballot holds at least `qr + qw - n` replies with its id. |
| `SynodAgreement.DecodeHasShares` | libndnpaxos/proposer.cpp:144-176 | RS mode goes on only with the id of the highest report and with replies carrying it from all but `f` nodes. |
| `Views.SystemView.Majority` | libndnpaxos/view.cpp:42 | The quorum size computed over the reals is the least integer with `2q > n`. |
| `Views.SystemView.constructor` | libndnpaxos/view.cpp:92-123 | The fields, the fallback to node 0 for a node id out of range, and the default RS parameters: x is the largest number up to 3 and n that has the parity of n, `qr + qw = n + x`, `qr = qw`, `1 <= x <= qr <= n`, and f is half of n - 2 rounded down, or 0 below three nodes. |
| `Views.SystemView.SetMaster` | libndnpaxos/view.cpp:148-150 | Only the master changes. |
| `Views.QuorumsOfCodeMeet` | libndnpaxos/view.cpp:41-115 | For every n the majority sizes and the default RS sizes satisfy what agreement needs. |
| `Views.DefaultXIsLargest` | libndnpaxos/view.cpp:102-114 | The number of data blocks of the default code is the largest that is at most 3, at most n and of the parity of n. |
| `Views.DefaultQuorumContinues` | libndnpaxos/proposer.cpp:144-176 | With the default RS sizes, the last reply of a quorum is answered with CONTINUE if and only if all replies are granted and all carry the reported id, if any; the value taken over is the reported one, or else the own. |
| `Views.DecodeHasEnough` | libndnpaxos/proposer.cpp:144-176 | With the default RS parameters the decoder is reached only with at least `qr >= x` shares of the value to decode. |
| `Views.ChosenSharesSuffice` | libndnpaxos/view.cpp:102-114 | With the default RS parameters, in every reachable state: a promise that completes the quorum of a ballot above a chosen one leaves at least `x` shares of the chosen value among the replies. |
| `Captains.Captain.constructor` | libndnpaxos/captain.cpp:39-57 | A new node is the initial state of the specification, in Multi mode with the acceptors 1 to length preset. |
| `Captains.Captain.PresetAcceptors` | libndnpaxos/captain.cpp:49-56 | The loop presets every acceptor of the leased slots to the first ballot of the master. |
| `Captains.Captain.Crash` | libndnpaxos/captain.cpp:762-769 | Only the work flag is cleared. |
| `Captains.Captain.AddCallback` | libndnpaxos/captain.cpp:844-885 | The loop moves the frontier to the last slot before the first hole and calls back once, in order, for each slot it passes. |
| `Captains.Captain.FillSlot` | libndnpaxos/captain.cpp:806-827 | The slot is filled unless it was, with holes before it if it is past the end, and the length stays the highest chosen slot plus one. |
| `Captains.Captain.AddChosenValue` | libndnpaxos/captain.cpp:806-832 | The log, the frontier and the callbacks change as `AddChosen` says. |
| `Captains.Captain.GrowAcceptors` | libndnpaxos/captain.cpp:238-242 | Acceptors are created up to the slot, and those that exist stay as they are. |
| `Captains.Captain.HandlePrepare` | libndnpaxos/captain.cpp:230-254 | A prepare request reaches the acceptor of its slot only, and the answer goes back to its sender. |
| `Captains.Captain.HandlePromise` | libndnpaxos/captain.cpp:256-341 | A promise moves the proposer of its slot from INIT to PHASEI, on to PHASEII with an accept request, or over again with a prepare request; any other slot and status is ignored. |
| `Captains.Captain.HandleAccept` | libndnpaxos/captain.cpp:343-369 | An accept request reaches the acceptor of its slot only, and the answer goes back to its sender. |
| `Captains.Captain.CountVote` | libndnpaxos/captain.cpp:371-406 | A vote is filed only in PHASEII; unless it settles the slot the proposer waits or starts over. |
| `Captains.Captain.AnnounceChosen` | libndnpaxos/captain.cpp:408-446 | The client of the own value is told, the value enters the log, its id is sent to all, and from mode 2 on the value too. |
| `Captains.Captain.ReplaceProposer` | libndnpaxos/captain.cpp:448-526 | The finished proposer goes; the oldest waiting value, or the own value if it lost, starts in a fresh slot. |
| `Captains.Captain.FinishSlot` | libndnpaxos/captain.cpp:408-526 | Announcing and replacing together, in this order. |
| `Captains.Captain.HandleAccepted` | libndnpaxos/captain.cpp:371-544 | Everything a vote can lead to: ignored, filed, a restart, or the end of the slot. |
| `Captains.Captain.StartPrepareNew` | libndnpaxos/captain.cpp:195-200 | A proposer for the next slot that starts with a prepare request. |
| `Captains.Captain.StartFastNew` | libndnpaxos/captain.cpp:183-192 | A proposer for the next slot that is in the second phase with its initial value. |
| `Captains.Captain.CommitPropValue` | libndnpaxos/captain.cpp:144-203 | A value waits while the window is full, and otherwise the oldest waiting value starts. |
| `Captains.Captain.Commit` | libndnpaxos/captain.cpp:118-142 | A string gets the next id of the node and is committed, or forwarded to the master. |
| `Captains.Captain.HandleDecide` | libndnpaxos/captain.cpp:546-571 | A decided slot is learned from the stored value with the decided id, or asked for; a slot already known is left alone. |
| `Captains.Captain.HandleLearn` | libndnpaxos/captain.cpp:573-592 | A known value is taught, an unknown one is not. |
| `Captains.Captain.HandleTeach` | libndnpaxos/captain.cpp:594-613 | A taught value is added unless the slot is known. |
| `Captains.Captain.HandleCommit` | libndnpaxos/captain.cpp:615-637 | The master returns the message and commits the value; other nodes do nothing to their state. |
| `Captains.Captain.HandleMsg` | libndnpaxos/captain.cpp:216-650 | For every message the fields, the messages sent, the callbacks and the clients told are those of the specification; a crashed node does nothing. |
| `CaptainInvariant.AddChosenLog` | libndnpaxos/captain.cpp:806-885 | Adding keeps the log in order: nothing overwritten, the frontier at the first hole, one callback for each slot up to it; only the slot added changes, and only if it was empty. |
| `CaptainInvariant.LogOfAdditions` | libndnpaxos/captain.cpp:806-885 | After any sequence of additions each slot holds the first value added for it, the log ends at the highest slot, and the callbacks are the values of the slots 1, 2, ... up to the first hole. |
| `CaptainInvariant.CommitValueBooks` | libndnpaxos/captain.cpp:144-203 | Committing keeps window, queue, order and conservation; so the window is never exceeded and no value waits while there is room. |
| `CaptainInvariant.ReplaceOwnBooks` | libndnpaxos/captain.cpp:450-498 | Handing the place of a chosen own value to the oldest waiting value keeps window, queue, order and conservation. |
| `CaptainInvariant.ReplaceLosingBooks` | libndnpaxos/captain.cpp:505-526 | Starting a losing value again keeps window, queue, order and conservation. |
| `CaptainInvariant.LocalCommitInv` | libndnpaxos/captain.cpp:118-203 | A local commit keeps log, window, queue, order, conservation and the numbering of ids, and forgets nothing. |
| `CaptainInvariant.HandleMsgInv` | libndnpaxos/captain.cpp:216-650 | So does every message. |
| `SlotStarts.CommitOpens` | libndnpaxos/captain.cpp:144-203 | With room in the window, the oldest of the waiting values and the new one gets the next slot: in Multi mode in the second phase with its ACCEPT sent at the first ballot, otherwise in the first with its PREPARE sent. |
| `SlotStarts.CommitQueues` | libndnpaxos/captain.cpp:157-162 | With a full window the value goes behind the waiting ones, and nothing is sent. |
| `SlotStarts.CommitIsAnswered` | libndnpaxos/captain.cpp:615-637 | A working master answers a COMMIT with the same message and commits the value; other nodes do nothing to their state. |
| `SlotStarts.PromiseMovesOn` | libndnpaxos/captain.cpp:256-341 | After a promise in the first phase the proposer is in PHASEII with its ACCEPT sent on CONTINUE, in INIT with a PREPARE at the next ballot and its report kept on RESTART, and in PHASEI otherwise. |
| `SlotStarts.OwnChoiceOpens` | libndnpaxos/captain.cpp:450-498 | When the own value is chosen, its slot is given up and the oldest waiting value, if any, is started in the next slot as a new one: in Multi mode in the second phase at the first ballot with its ACCEPT sent and no PREPARE. |
| `SlotStarts.LosingReopens` | libndnpaxos/captain.cpp:505-526 | When another value is chosen, the own one starts again in the next slot, in the first phase of a fresh proposer with its PREPARE sent, whatever the mode; the queue stays. |
| `SlotStarts.PreparesExactly` | libndnpaxos/captain.cpp:183-200 | In Multi mode, handling a message sends a PREPARE if and only if a promise or a vote makes the proposer of that slot start over, at its next ballot, or a vote has just chosen another value than the own one, for the next slot at the first ballot. |
| `SlotStarts.PreparesExplained` | libndnpaxos/captain.cpp:183-200 | In every run of Multi mode, each PREPARE in the network was sent at an earlier event with one of these two reasons. |
| `SlotStarts.LostToChosen` | libndnpaxos/captain.cpp:505-526 | The value the own one lost to is chosen in the earlier slot. |
| `SlotStarts.LateAnswersIgnored` | libndnpaxos/captain.cpp:262-281 | Promises past the first phase, votes outside the second, and answers about other slots change nothing and are not answered. |
| `SlotStarts.CrashedForGood` | libndnpaxos/captain.cpp:216-225 | In every run, a crashed node that is handed no strings stays as it was and says nothing. |
| `CatchUp.TeachFills` | libndnpaxos/captain.cpp:594-613 | A taught value fills its slot if that was empty, changes no other, and asks for nothing; log, frontier and callbacks stay in order. |
| `CatchUp.DecideFillsOrAsks` | libndnpaxos/captain.cpp:546-571 | A decided id fills an empty slot with the value stored under it, is answered with LEARN if that value is not stored, and leaves a known slot alone. |
| `CatchUp.LearnTeaches` | libndnpaxos/captain.cpp:573-592 | LEARN of a known slot is answered with TEACH of the logged value, and of an unknown one with nothing. |
| `CatchUp.ChoiceIsTaught` | libndnpaxos/captain.cpp:425-446 | A node that finishes a slot knows it, and sends the logged value with TEACH if and only if the mode is Multi or Quorum. |
| `CatchUp.ReachableAnnounced` | libndnpaxos/captain.cpp:408-446 | In every reachable state, a slot that some log holds or some TEACH is about was announced by a DECIDE. |
| `CatchUp.CanLearn` | libndnpaxos/captain.cpp:546-613 | From every reachable state without crashed nodes in which one node knows a slot, at most three deliveries of DECIDE, LEARN and TEACH make any other node know it with the same value. |
| `CatchUp.CanCatchUp` | libndnpaxos/captain.cpp:546-613 | From every such state, any node can be led by such deliveries to have called back all that another node has, in the same order. |
| `SlotRefinement.EventSteps` | libndnpaxos/captain.cpp:118-650 | Whatever a node does at one event is, seen from each slot, one step of that slot or nothing. |
| `Learning.HandleMsgLearns` | libndnpaxos/captain.cpp:408-613 | A log entry appears only for the own choice, a decided id whose value is stored, or a taught value; and only such ids and values are announced. |
| `ValueOrigin.HandleMsgKnown` | libndnpaxos/captain.cpp:216-650 | Nodes store and send no value they were not given or sent. |
| `SystemInvariant.IdsDetermineValues` | libndnpaxos/captain.cpp:118-127 | An id belongs to one value in the whole system. |
| `SystemInvariant.JustifiedIsChosen` | libndnpaxos/captain.cpp:408-613 | In a reachable state, what a node learns by an own choice, a DECIDE or a TEACH was accepted by a write quorum of the slot. |
| `SystemInvariant.EventInv` | libndnpaxos/captain.cpp:118-650 | Every event, in any interleaving of deliveries, commits and crashes, keeps the invariant of the whole system. |
| `SystemInvariant.ReachableInv` | libndnpaxos/captain.cpp:118-650 | It holds in every reachable state, for any number of nodes and slots. |
| `Replication.ChoicesAgree` | libndnpaxos/captain.cpp:408-442 | Any two CHOOSE outcomes for one slot, at any nodes and moments of a run, have the same value, under loss, duplication and reordering. |
| `Replication.LogsAgree` | libndnpaxos/captain.cpp:546-613 | No two logs of a reachable state hold different values for a slot (in RS mode: different ids). |
| `Replication.CallbacksArePrefixes` | libndnpaxos/captain.cpp:844-885 | State-machine replication: the callback sequences of any two nodes are prefixes of one another in every reachable state (in RS mode: the sequences of their ids). |
| `Replication.CallbacksArePrefixesOverTime` | libndnpaxos/captain.cpp:844-885 | The same for two nodes at two different moments of a run (in RS mode: for the ids). |
| `Replication.BooksHold` | libndnpaxos/captain.cpp:144-203 | In every reachable state of every node: log frontier, window, queue, order of first proposals, and each committed value waiting, active or reported exactly once. |
| `Replication.SlotsAreRuns` | libndnpaxos/captain.cpp:216-650 | Projected to one slot, every run of the system is a run of that slot. |
| `Replication.MessagesAreSensible` | libndnpaxos/captain.cpp:216-650 | Every message in a reachable state meets what the handlers of the class expect. |
| `Replication.EnoughSharesAt` | libndnpaxos/proposer.cpp:144-167 | For any quorums with `qr + qw = n + x`, in every reachable state: the promise that completes a quorum above a chosen ballot leaves at least `x` shares of the chosen value. |
| `AtMostOnce.OriginStep` | libndnpaxos/proposer.cpp:134-184 | A slot accepts only ids some proposer was started with there. |
| `AtMostOnce.ReplaceOnce` | libndnpaxos/captain.cpp:448-526 | Replacing a finished proposer keeps this: while the ids committed at the node are distinct, a value is proposed again only in a fresh slot and only after its old slot is known to hold another id. |
| `AtMostOnce.AtMostOnce` | libndnpaxos/captain.cpp:448-526 | In every reachable state in which no id was committed twice, an id is chosen in at most one slot. |
| `ForwardedCommits.RunCommits` | libndnpaxos/captain.cpp:615-624 | In every run, a committed value was created by the master that committed it or handed to it by a COMMIT, every COMMIT handled by a working master is committed, and the ids of COMMITs belong to nodes that are no masters. |
| `ForwardedCommits.CommittedOnceIff` | libndnpaxos/captain.cpp:118-203 | In every run, no id is committed twice if and only if no two COMMITs with one id were handled by working nodes that take themselves for the master. |
| `ForwardedCommits.HandledOnceChosenOnce` | libndnpaxos/captain.cpp:615-624 | At most once on events: in every run in which no two COMMITs with one id were so handled, an id is chosen in at most one slot. |
| `ForwardedCommits.LocalValuesAtMostOnce` | libndnpaxos/captain.cpp:118-203 | In every run without delivered COMMIT messages, an id is chosen in at most one slot. |
| `DuplicatedCommit.ChosenTwice` | libndnpaxos/captain.cpp:615-624 | A COMMIT delivered twice: a run of two nodes in which one id is chosen in two slots; the run handles two COMMITs with one id and commits the id twice. |
| `Progress.FromFirst` | libndnpaxos/captain.cpp:256-544 | From every reachable state without crashed nodes, a proposer in its first phase can be led to the end of its slot; if no other value is around, its own value is chosen there. In RS mode with `qw <= qr` this needs that nobody has heard of a value in the slot, or that all acceptors hold one id and quorums are all but f nodes. |
| `RepeatedCommit.ChosenInTwoSlots` | libndnpaxos/captain.cpp:615-624 | In every system, whatever the mode, with a node that takes itself for the master and has a window, another that forwards, and a write quorum in reach: some run chooses one id in two slots. |
| `RepeatedCommit.ChosenOnceExactlyWhen` | libndnpaxos/captain.cpp:118-203 | For every valid configuration: in every run an id is chosen in at most one slot, if and only if a write quorum is out of reach, or no node takes itself for the master and has a window, or every node takes itself for the master. |
| `MultiMode.PresetIsPrepared` | libndnpaxos/captain.cpp:49-56 | A preset acceptor is one that granted the first prepare request of the master with nothing to report. |
| `MultiMode.EmptyPromisesSuffice` | libndnpaxos/captain.cpp:183-192 | Empty promises of a read quorum, in any order and number, lead a proposer to the state Multi mode skips to, up to the map of promises. |
| `MultiMode.SameFromThere` | libndnpaxos/proposer.cpp:53-59 | That map makes no difference: promises are dropped, votes are answered alike, and a restart clears it. |
| `MultiMode.LeaseRefinesPlain` | libndnpaxos/captain.cpp:49-56 | Whatever a leased slot reaches, with competitors or not, the slot without the lease reaches with the same acceptors and at least the same messages. |
| `MultiMode.LeasedChoiceIsPlain` | libndnpaxos/captain.cpp:183-192 | What is chosen in a leased slot is chosen in a run of the slot without the lease. |
| `MultiMode.LeasedSlotsRefine` | libndnpaxos/captain.cpp:183-192 | Where all nodes name one master that has a window, this holds of every slot that all nodes take for leased, in every run of a Multi-mode system. |
| `TwoMasters.Disagree` | libndnpaxos/captain.cpp:183-192 | In every Multi-mode system with two nodes that take themselves for the master and have a window, and a write quorum in reach, some run chooses two ids in one slot. |
| `TwoMasters.AgreesExactlyWhen` | libndnpaxos/captain.cpp:183-192 | For every configuration of meeting quorums: in every run each slot has at most one chosen id, if and only if the mode is not Multi, or a write quorum is out of reach, or at most one node takes itself for the master and has a window. |
| `GaloisField.MulAddRight` | libzfec/fec.cc:77-86 | Multiplication distributes over addition. |
| `GaloisField.MulComm` | libzfec/fec.cc:77-86 | Multiplication is commutative. |
| `GaloisField.MulAssoc` | libzfec/fec.cc:77-86 | Multiplication is associative. |
| `GaloisField.MulInv` | libzfec/fec.cc:144-152 | Every nonzero element times its inverse is one. |
| `GaloisField.MulPow` | libzfec/fec.cc:77-86 | The product of two powers of alpha is the power of the sum. |
| `GaloisField.PowValues` | libzfec/fec.cc:94-153 | The power 255 of alpha is one, and the powers 15, 51 and 85 are not. |
| `GaloisField.PowOrder` | libzfec/fec.cc:94-153 | No smaller positive power of alpha is one. |
| `GaloisField.PowSurjective` | libzfec/fec.cc:94-153 | Every nonzero byte is a power of alpha below 255. |
| `FecTables.Modnn` | libzfec/fec.cc:37-44 | `modnn` is the remainder by 255 for every nonnegative argument, and ends. |
| `FecTables.FirstPowers` | libzfec/fec.cc:99-121 | The first nine powers and their logarithms, from the bits of the primitive polynomial. |
| `FecTables.OtherPowers` | libzfec/fec.cc:128-135 | Shift-and-reduce fills the tables with the powers of alpha and their logarithms. |
| `FecTables.GenerateGf` | libzfec/fec.cc:94-153 | The tables hold the powers over two periods, the logarithms with 255 for zero, and the inverses. |
| `FecTables.InitMulTable` | libzfec/fec.cc:77-86 | Every entry of the multiplication table is the field product, with zero rows and columns. |
| `FecKernels.Tables.constructor` | libzfec/fec.cc:391-397 | The initialised tables are those of the field. |
| `FecKernels.AddMul1` | libzfec/fec.cc:170-204 | The unrolled loop adds c times the source to exactly the `sz` bytes of the destination, for every `sz`. |
| `FecKernels.AddMul` | libzfec/fec.cc:166-167 | Skipping a zero factor changes nothing. |
| `MatrixInversion.FindPivot` | libzfec/fec.cc:256-275 | The search returns a nonzero entry outside the rows and columns used, or reports failure only if there is none. |
| `MatrixInversion.PivotExists` | libzfec/fec.cc:256-279 | At every round of eliminating a nonsingular matrix there is such an entry, so the search never fails. |
| `MatrixInversion.ScaleRow` | libzfec/fec.cc:287-299 | The pivot row is divided by the pivot, which becomes one although it is overwritten first. |
| `MatrixInversion.Eliminate` | libzfec/fec.cc:307-317 | Multiples of the pivot row are removed from all others; leaving this out for a unit row changes nothing. |
| `MatrixInversion.PivotColumn` | libzfec/fec.cc:250-318 | One pass of the outer loop is one exchange step of Gauss-Jordan elimination. |
| `MatrixInversion.UndoSwaps` | libzfec/fec.cc:319-322 | The column swaps in reverse order undo the row swaps. |
| `MatrixInversion.InvertMat` | libzfec/fec.cc:231-323 | Every nonsingular matrix is replaced in place by its inverse. |
| `InverseFacts.InversesMultiply` | libzfec/fec.cc:225-230 | A matrix and its inverse multiply to the identity matrix in both orders. |
| `VandermondeInversion.ProductCoefficients` | libzfec/fec.cc:363-369 | Although the new lowest coefficient is never written, the buffer holds the coefficients of the product of all x - p_i, because the first point is zero. |
| `VandermondeInversion.SyntheticDivision` | libzfec/fec.cc:375-381 | The inner loop leaves the quotient by x - p_row in `b` and its value at p_row in `t`. |
| `VandermondeInversion.InvertVdm` | libzfec/fec.cc:337-389 | A Vandermonde matrix of distinct points, the first zero, is replaced by the matrix of its Lagrange polynomials. |
| `InverseFacts.DivisorIsProduct` | libzfec/fec.cc:376-383 | The divisor `t` is the product of p_row - p_j over all other points, and is not zero. |
| `InverseFacts.VandermondeInverted` | libzfec/fec.cc:337-389 | That matrix is the inverse of the Vandermonde matrix. |
| `VandermondeInversion.Matmul` | libzfec/fec.cc:209-223 | The triple loop computes the matrix product. |
| `VandermondeTheory.VandermondeEntry` | libzfec/fec.cc:434-439 | The table entry at `modnn(row * col)` is the power `col` of the evaluation point of the row. |
| `VandermondeTheory.PointsDistinct` | libzfec/fec.cc:434-439 | All evaluation points are distinct, for up to 256 rows. |
| `VandermondeTheory.GeneratorRowEvaluates` | libzfec/fec.cc:446-453 | A row of the generator times the data is the value, at its point, of the polynomial through the data. |
| `VandermondeTheory.SelectedNonsingular` | libzfec/fec.cc:446-453 | Any k distinct rows of the generator form a nonsingular matrix. |
| `ErasureCode.BuildGenerator` | libzfec/fec.cc:429-454 | The matrix built is the generator: the identity above, the Vandermonde rows times the inverse of their top block below. |
| `ErasureCode.Fec.constructor` | libzfec/fec.cc:414-457 | A new code holds its generator matrix. |
| `ErasureCode.PrimaryByte` | libzfec/fec.cc:451-453 | The code is systematic: a primary block is its data block. |
| `ErasureCode.FecEncode` | libzfec/fec.cc:465-483 | Every byte below `sz` of each check block is the byte of the code word, and every other byte is as before, for every block size. |
| `ErasureCode.SelectRows` | libzfec/fec.cc:492-501 | The generator rows of the blocks in hand, with unit rows for the primary ones. |
| `ErasureCode.BuildDecodeMatrix` | libzfec/fec.cc:490-503 | The inverse of those rows. |
| `ErasureCode.FecDecode` | libzfec/fec.cc:505-522 | From any k distinct blocks of a code word, primaries in place, the outputs are exactly the missing data blocks in ascending order. |
| `ReedSolomon.RSEncoder.RsEncode` | libndnpaxos/rs_encoder.hpp:28-55 | For every string at most one byte short of k full blocks: its primary blocks as they are and the check blocks of its code word, with the final zero as that byte, are put behind the blocks of earlier calls, and all of them are returned. |
| `ReedSolomon.EncodeTwice` | libndnpaxos/proposer.cpp:75-98 | An encoder used for two strings: the first n blocks, which the proposer sends, are the blocks of the second string if and only if the strings are equal. |
| `ReedSolomon.ChooseBlocks` | libndnpaxos/rs_decoder.hpp:33-46 | With k blocks present the search stays in range and picks k distinct present blocks, the primaries in place. |
| `ReedSolomon.RSDecoder.RsDecode` | libndnpaxos/rs_decoder.hpp:26-64 | From any k present blocks, what is added behind the results of earlier calls is the original string if and only if block 0 is present, and the last primary block too if it is short, or the string is empty. |
| `ShareRecovery.Gather` | libndnpaxos/proposer.cpp:154-163 | The loop puts the block of every granted reply with the id in its place, marks exactly these, and counts the others as lost. |
| `ShareRecovery.Recover` | libndnpaxos/proposer.cpp:144-176 | The ballot starts over if and only if more than f blocks are missing; otherwise what the decoder adds is the string under the condition of `RsDecode` on the nodes that sent a block, and then the result is the string if and only if the decoder had no earlier results. |
| `ShareRecovery.DecodeChosen` | libndnpaxos/proposer.cpp:144-176 | In every reachable state: the promises that complete a quorum above a chosen ballot carry at least x blocks of the chosen value, and decoding them gives the chosen string if and only if the condition of `RsDecode` holds of the nodes that sent one. |
| `ReedSolomon.RoundTrip` | libndnpaxos/rs_decoder.hpp:26-64 | Encoding, losing any blocks but k, and decoding returns the string under exactly the same condition. |
| `ThreadPool.PoolCore.ScheduleTask` | libndnpaxos/threadpool/detail/pool_core.hpp:182-195 | A task goes to the end of the queue. |
| `ThreadPool.PoolCore.ResizeTo` | libndnpaxos/threadpool/detail/pool_core.hpp:329-365 | A terminating pool refuses. Otherwise the target is set, the worker count grows to the target or by the threads granted, whichever is less, never shrinks, and the answer is true if and only if the target is reached. |
| `ThreadPool.PoolCore.FetchTask` | libndnpaxos/threadpool/detail/pool_core.hpp:401-435 | Up to its first wait a worker leaves if there are too many, waits if there is no task, and takes the oldest otherwise. |
| `ThreadPool.PoolCore.WakeUp` | libndnpaxos/threadpool/detail/pool_core.hpp:417-435 | After a wake-up a worker takes the oldest task even if there are too many workers, and leaves or waits only if there is none. |
| `ThreadPool.PoolCore.WorkerDestructed` | libndnpaxos/threadpool/detail/pool_core.hpp:387-398 | A worker that left is no longer counted. |
| `ThreadPool.PoolCore.WorkerDiedUnexpectedly` | libndnpaxos/threadpool/detail/pool_core.hpp:369-385 | A worker lost to a throwing task is no longer counted and is asked for again. |
| `ThreadPool.PoolCore.ClearTasks` | libndnpaxos/threadpool/detail/pool_core.hpp:217-223 | All waiting tasks are dropped; running ones are not touched. |
| `ThreadPool.PoolCore.TerminateAllWorkers` | libndnpaxos/threadpool/detail/pool_core.hpp:296-304 | The target becomes zero and the pool never grows again. |
| `ThreadPool.PoolCore.MayReturn` | libndnpaxos/threadpool/detail/pool_core.hpp:241-260 | The loop condition of `wait`, for zero and for any other threshold. |
| `PoolProgress.ResizeGrows` | libndnpaxos/threadpool/detail/pool_core.hpp:329-365 | The new count is the smaller of the target and the old count plus the threads granted; as many fresh workers are about to take the lock and counted as active, and all others stay as they were. |
| `PoolProgress.DeathReplaced` | libndnpaxos/threadpool/detail/pool_core.hpp:369-385 | In every reachable state of a running pool, a worker lost to a throwing task is replaced by a fresh one if a thread is granted, and the count and the target are the old count. |
| `PoolProgress.OldestCanStart` | libndnpaxos/threadpool/detail/pool_core.hpp:401-435 | From every reachable state in which a task waits, a worker that waits, or one that is not leaving in a pool that is not to shrink, can start the oldest task. |
| `PoolProgress.Drains` | libndnpaxos/threadpool/detail/pool_core.hpp:401-435 | Granted one more thread, a pool that is not terminating can start all its waiting tasks, in their order. |
| `PoolProgress.ClearForgets` | libndnpaxos/threadpool/detail/pool_core.hpp:217-223 | Clearing empties the queue and takes exactly its tasks out of the unfinished ones. |
| `PoolProgress.WaitForAllIff` | libndnpaxos/threadpool/detail/pool_core.hpp:241-252 | `wait(0)` may return if and only if no task is unfinished and every worker is back at its wait. |
| `PoolProgress.WaitForThresholdIff` | libndnpaxos/threadpool/detail/pool_core.hpp:253-260 | `wait(n)` may return if and only if the workers away from their wait and the waiting tasks are at most n together. |
| `PoolProgress.CanTerminate` | libndnpaxos/threadpool/detail/pool_core.hpp:296-326 | Once a pool is told to terminate, its workers can all leave; none is active then and each is kept for joining. |
| `ThreadPool.NextInv` | libndnpaxos/threadpool/detail/pool_core.hpp:182-445 | Every lock-protected step of clients and workers keeps the invariant of the monitor. |
| `ThreadPool.ActivePlusWaiting` | libndnpaxos/threadpool/detail/pool_core.hpp:401-435 | Over every interleaving, active workers plus waiting workers are the workers counted, and the counters stay in range. |
| `ThreadPool.FirstInFirstOut` | libndnpaxos/threadpool/detail/pool_core.hpp:416-434 | Tasks start in the order they were scheduled, each at most once; each waits, was started or was cleared, and no two of these. |
| `ThreadPool.WaitForAll` | libndnpaxos/threadpool/detail/pool_core.hpp:241-252 | When `wait(0)` returns, every task scheduled so far and not cleared has ended. |
| `ThreadPool.WaitForThreshold` | libndnpaxos/threadpool/detail/pool_core.hpp:253-260 | When `wait(n)` returns, at most n such tasks have not ended. |

## Left out

- Transport: faces, interests, signing, protobuf and YAML parsing, and the choice of recipients in Quorum and Multi mode. A sent message may reach any node (an answer only its addressee), or none.
- A node that sends to itself handles the message at once in one branch of RS mode; here it is delivered like any other.
- Master change: its only caller is commented out, and `cmd_type` values are not modelled. Each node names a master once and for all, and any nodes may take themselves for the master; in Multi mode at most one that has a window may, and `TwoMasters.AgreesExactlyWhen` shows that this is exact.
- Waiting of a client for the answer to a forwarded commit, client names, and which client is told after a value is committed again: the code passes the name of the message at hand.
- AtMostOnce.AtMostOnce: goes one way for a single run, as an id that was committed twice may end up chosen once; `ForwardedCommits.CommittedOnceIff` says which runs commit an id twice, and `RepeatedCommit.ChosenOnceExactlyWhen` which configurations have a run that chooses one twice.
- RepeatedCommit.ChosenOnceExactlyWhen: for valid configurations; Multi mode with two masters has lost agreement already.
- Shares in RS mode: in the protocol a stored or reported share is represented by the value it belongs to, so agreement is about ids.
- ShareRecovery.DecodeChosen: takes the block that node i reports for block i of one encoding of the value. The code does not keep this in all runs, as `ReedSolomon.EncodeTwice` shows; and which string belongs to an id is not tracked.
- ShareRecovery.Recover: the encoding of the decoded string for the second phase is `ReedSolomon.RSEncoder.RsEncode`, which is not called here.
- RS parameters from configuration files: the default formula is used. `SynodAgreement.Agreement` and `Replication.EnoughSharesAt` hold for all quorum sizes that meet.
- Slot 0, which has no acceptor: no message of a reachable state is about it (`Replication.MessagesAreSensible`).
- 64-bit overflow of ballots, ids and slots: natural numbers, with node ids below 65536.
- Liveness under any delivery of messages (`Progress`, `CatchUp` and `PoolProgress` show that good continuations exist), recovery of crashed nodes (its code is empty), and memory ownership.
- ReedSolomon.RSEncoder.RsEncode: strings at most one byte short of k full blocks; for others the original throws, or reads past the final zero of the string, where the content is not the program's.
- ReedSolomon.RoundTrip: for the same strings.
- ReedSolomon.RSDecoder.RsDecode: for the same strings.
- ErasureCode.FecEncode: at most 255 blocks and 255 check blocks at a time, as the loop counters of one byte demand.
- Matrices and check blocks as stretches of one array: here each row or block is an array of its own. The flag for the one-time initialisation of the tables is not modelled.
- Behaviour after a failed assert.
- Timed waits of the pool, its other schedulers, joining of terminated workers, and threads that fail outside a task.
- Benchmarks, database, examples and test programs: input, output and timing only.
