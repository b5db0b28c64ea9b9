/**
 Preemption of transfers (src/qos/preemption.rs): pausing lower classes,
 resuming, unregistering and cleaning up, with the counters the controller keeps.
 */
module Preemption {
  import opened Collections
  import opened Qos

  /** A UUID. */
  type TransferId = nat

  datatype Transfer = Transfer(cls: QoSClass, bytesTotal: nat, bytesSent: nat, canPause: bool, isPaused: bool) {
    function BytesRemaining(): nat {
      if bytesSent <= bytesTotal then bytesTotal - bytesSent else 0
    }

    predicate IsComplete() { bytesSent >= bytesTotal }

    predicate CanBePreemptedBy(incoming: QoSClass) { canPause && incoming.CanPreempt(cls) }
  }

  type Transfers = map<TransferId, Transfer>

  /** The paused count is kept unwrapped; what the code reads of it is `Shown`. */
  datatype Controller = Controller(transfers: Transfers, pausedCount: int, preemptionCount: nat) {
    function Shown(): nat { pausedCount % 0x1_0000_0000_0000_0000 }
  }

  function PausedIds(m: Transfers): set<TransferId> {
    set id | id in m && m[id].isPaused
  }

  function Preemptable(m: Transfers, incoming: QoSClass): set<TransferId> {
    set id | id in m && m[id].CanBePreemptedBy(incoming)
  }

  // --- The operations ---

  function Register(c: Controller, id: TransferId, cls: QoSClass, bytesTotal: nat, canPause: bool): Controller
    requires id !in c.transfers
  {
    c.(transfers := c.transfers[id := Transfer(cls, bytesTotal, 0, canPause, false)])
  }

  function Unregister(c: Controller, id: TransferId): Controller {
    if id !in c.transfers then c
    else Controller(c.transfers - {id},
                    if c.transfers[id].isPaused then c.pausedCount - 1 else c.pausedCount,
                    c.preemptionCount)
  }

  function Pausing(m: Transfers, ids: set<TransferId>): Transfers {
    map id | id in m :: if id in ids then m[id].(isPaused := true) else m[id]
  }

  function Resuming(m: Transfers, ids: set<TransferId>): Transfers {
    map id | id in m :: if id in ids then m[id].(isPaused := false) else m[id]
  }

  /** Counts every transfer it matches, also those paused already. */
  function PauseBelow(c: Controller, incoming: QoSClass): Controller {
    var ids := Preemptable(c.transfers, incoming);
    Controller(Pausing(c.transfers, ids),
               c.pausedCount + |ids|,
               if ids == {} then c.preemptionCount else c.preemptionCount + 1)
  }

  function ResumeOne(c: Controller, id: TransferId): Controller {
    if id in c.transfers && c.transfers[id].isPaused then
      c.(transfers := c.transfers[id := c.transfers[id].(isPaused := false)], pausedCount := c.pausedCount - 1)
    else c
  }

  function Resume(c: Controller, ids: seq<TransferId>): Controller
    decreases |ids|
  {
    if ids == [] then c else Resume(ResumeOne(c, ids[0]), ids[1..])
  }

  function ResumeAll(c: Controller): Controller {
    c.(transfers := Resuming(c.transfers, c.transfers.Keys), pausedCount := 0)
  }

  /** Drops completed transfers, and leaves the paused count alone. */
  function CleanUp(c: Controller): Controller {
    c.(transfers := map id | id in c.transfers && !c.transfers[id].IsComplete() :: c.transfers[id])
  }

  function RecordSent(c: Controller, id: TransferId, bytes: nat): Controller {
    if id !in c.transfers then c
    else c.(transfers := c.transfers[id := c.transfers[id].(bytesSent := c.transfers[id].bytesSent + bytes)])
  }

  /** `pause` called on a transfer itself: the count does not follow. */
  function PauseHandle(c: Controller, id: TransferId): Controller {
    if id in c.transfers && c.transfers[id].canPause
    then c.(transfers := c.transfers[id := c.transfers[id].(isPaused := true)])
    else c
  }

  /** `resume` called on a transfer itself: the count does not follow. */
  function ResumeHandle(c: Controller, id: TransferId): Controller {
    if id in c.transfers then c.(transfers := c.transfers[id := c.transfers[id].(isPaused := false)]) else c
  }

  predicate ShouldPreempt(m: Transfers, incoming: QoSClass) {
    && (incoming.Critical? || incoming.High?)
    && exists id :: id in m && m[id].CanBePreemptedBy(incoming) && !m[id].isPaused
  }

  // --- What every run keeps ---

  /** By how much the counter exceeds the number of paused transfers. */
  function Drift(c: Controller): int {
    c.pausedCount - |PausedIds(c.transfers)|
  }

  /** Only pausable transfers below Critical are paused. */
  predicate Eligible(m: Transfers) {
    forall id :: id in m && m[id].isPaused ==> m[id].canPause && !m[id].cls.Critical?
  }

  predicate Inv(c: Controller) {
    Drift(c) >= 0 && Eligible(c.transfers)
  }

  datatype Operation =
    | Registers(id: TransferId, cls: QoSClass, bytesTotal: nat, canPause: bool)
    | Unregisters(id: TransferId)
    | Pauses(incoming: QoSClass)
    | Resumes(ids: seq<TransferId>)
    | ResumesAll
    | Cleans
    | Sends(id: TransferId, bytes: nat)
    | PausesHandle(id: TransferId)
    | ResumesHandle(id: TransferId)

  /** Registering mints a new id; everything else may be called at any time. */
  predicate Possible(c: Controller, op: Operation) {
    op.Registers? ==> op.id !in c.transfers
  }

  function Apply(c: Controller, op: Operation): Controller
    requires Possible(c, op)
  {
    match op
    case Registers(id, cls, bytesTotal, canPause) => Register(c, id, cls, bytesTotal, canPause)
    case Unregisters(id) => Unregister(c, id)
    case Pauses(incoming) => PauseBelow(c, incoming)
    case Resumes(ids) => Resume(c, ids)
    case ResumesAll => ResumeAll(c)
    case Cleans => CleanUp(c)
    case Sends(id, bytes) => RecordSent(c, id, bytes)
    case PausesHandle(id) => PauseHandle(c, id)
    case ResumesHandle(id) => ResumeHandle(c, id)
  }

  const EMPTY: Controller := Controller(map[], 0, 0)

  predicate Feasible(ops: seq<Operation>)
    decreases |ops|, 0
  {
    ops == [] || (Feasible(ops[..|ops| - 1]) && Possible(Run(ops[..|ops| - 1]), ops[|ops| - 1]))
  }

  function Run(ops: seq<Operation>): Controller
    requires Feasible(ops)
    decreases |ops|, 1
  {
    if ops == [] then EMPTY else Apply(Run(ops[..|ops| - 1]), ops[|ops| - 1])
  }

  /** The completed transfers that are paused. */
  function PausedComplete(m: Transfers): set<TransferId> {
    set id | id in m && m[id].isPaused && m[id].IsComplete()
  }

  /**
   What an operation adds to the drift: a pause, each transfer paused already; a
   clean-up, each paused one it drops; a transfer paused or resumed by itself, the
   change that the count missed.
   */
  function Added(c: Controller, op: Operation): int {
    match op
    case Registers(_, _, _, _) => 0
    case Unregisters(_) => 0
    case Pauses(incoming) => |PausedIds(c.transfers) * Preemptable(c.transfers, incoming)|
    case Resumes(_) => 0
    case ResumesAll => -Drift(c)
    case Cleans => |PausedComplete(c.transfers)|
    case Sends(_, _) => 0
    case PausesHandle(id) => if id in c.transfers && c.transfers[id].canPause && !c.transfers[id].isPaused then -1 else 0
    case ResumesHandle(id) => if id in PausedIds(c.transfers) then 1 else 0
  }

  lemma DriftLaw(c: Controller, op: Operation)
    requires Possible(c, op)
    ensures Drift(Apply(c, op)) == Drift(c) + Added(c, op)
  {
    match op {
      case Registers(id, cls, bytesTotal, canPause) => RegisterDrift(c, id, cls, bytesTotal, canPause);
      case Unregisters(id) => UnregisterDrift(c, id);
      case Pauses(incoming) => PauseDrift(c, incoming);
      case Resumes(ids) => ResumeEffect(c, ids);
      case ResumesAll => assert PausedIds(ResumeAll(c).transfers) == {};
      case Cleans => CleanDrift(c);
      case Sends(id, bytes) => SendDrift(c, id, bytes);
      case PausesHandle(id) => PauseHandleDrift(c, id);
      case ResumesHandle(id) => ResumeHandleDrift(c, id);
    }
  }

  lemma RegisterDrift(c: Controller, id: TransferId, cls: QoSClass, bytesTotal: nat, canPause: bool)
    requires id !in c.transfers
    ensures Drift(Register(c, id, cls, bytesTotal, canPause)) == Drift(c)
  {
    assert PausedIds(Register(c, id, cls, bytesTotal, canPause).transfers) == PausedIds(c.transfers);
  }

  lemma PausedByHandle(c: Controller, id: TransferId)
    ensures var pauses := id in c.transfers && c.transfers[id].canPause && !c.transfers[id].isPaused;
            && (pauses ==> id !in PausedIds(c.transfers))
            && PausedIds(PauseHandle(c, id).transfers) == PausedIds(c.transfers) + if pauses then {id} else {}
    ensures PauseHandle(c, id).pausedCount == c.pausedCount
  {
  }

  lemma PauseHandleDrift(c: Controller, id: TransferId)
    ensures Drift(PauseHandle(c, id)) == Drift(c) + Added(c, PausesHandle(id))
  {
    hide PausedIds, PauseHandle;
    PausedByHandle(c, id);
    var paused := PausedIds(c.transfers);
    assert paused + {} == paused;
    if id !in paused {
      SizeAdd(paused, id);
    }
  }

  lemma ResumedIds(c: Controller, id: TransferId)
    ensures PausedIds(ResumeHandle(c, id).transfers) == PausedIds(c.transfers) - {id}
    ensures ResumeHandle(c, id).pausedCount == c.pausedCount
  {
  }

  lemma ResumeHandleDrift(c: Controller, id: TransferId)
    ensures Drift(ResumeHandle(c, id)) == Drift(c) + Added(c, ResumesHandle(id))
  {
    var paused := PausedIds(c.transfers);
    hide PausedIds, ResumeHandle;
    ResumedIds(c, id);
    if id in paused {
      SizeAdd(paused - {id}, id);
      assert paused - {id} + {id} == paused;
    } else {
      assert paused - {id} == paused;
    }
  }

  lemma UnregisterDrift(c: Controller, id: TransferId)
    ensures Drift(Unregister(c, id)) == Drift(c)
  {
    assert PausedIds(Unregister(c, id).transfers) == PausedIds(c.transfers) - {id};
  }

  lemma PauseDrift(c: Controller, incoming: QoSClass)
    ensures Drift(PauseBelow(c, incoming))
         == Drift(c) + |PausedIds(c.transfers) * Preemptable(c.transfers, incoming)|
  {
    PausedAfterPausing(c.transfers, incoming);
  }

  lemma PausedAfterPausing(m: Transfers, incoming: QoSClass)
    ensures PausedIds(Pausing(m, Preemptable(m, incoming))) == PausedIds(m) + Preemptable(m, incoming)
    ensures |PausedIds(m) + Preemptable(m, incoming)|
         == |PausedIds(m)| + |Preemptable(m, incoming)| - |PausedIds(m) * Preemptable(m, incoming)|
  {
  }

  lemma CleanDrift(c: Controller)
    ensures Drift(CleanUp(c)) == Drift(c) + |PausedComplete(c.transfers)|
  {
    var was, now, gone := PausedIds(c.transfers), PausedIds(CleanUp(c).transfers), PausedComplete(c.transfers);
    assert was == now + gone && now !! gone;
  }

  lemma SendDrift(c: Controller, id: TransferId, bytes: nat)
    ensures Drift(RecordSent(c, id, bytes)) == Drift(c)
  {
    assert PausedIds(RecordSent(c, id, bytes).transfers) == PausedIds(c.transfers);
  }

  lemma ResumeOneDrift(c: Controller, id: TransferId)
    ensures Drift(ResumeOne(c, id)) == Drift(c)
    ensures ResumeOne(c, id).transfers == Resuming(c.transfers, {id})
  {
    assert PausedIds(ResumeOne(c, id).transfers) == PausedIds(c.transfers) - {id};
  }

  lemma {:induction false} ResumeEffect(c: Controller, ids: seq<TransferId>)
    ensures Resume(c, ids).transfers == Resuming(c.transfers, Elements(ids))
    ensures Drift(Resume(c, ids)) == Drift(c)
    decreases |ids|
  {
    hide Resuming, Drift, ResumeOne, Elements;
    if ids == [] {
      NoElements<TransferId>();
      ResumingNone(c.transfers, Elements(ids));
    } else {
      ResumeOneDrift(c, ids[0]);
      ResumeEffect(ResumeOne(c, ids[0]), ids[1..]);
      ElementsCons(ids);
      ResumingTwice(c.transfers, {ids[0]}, Elements(ids[1..]));
    }
  }

  lemma ResumingNone(m: Transfers, none: set<TransferId>)
    requires none == {}
    ensures Resuming(m, none) == m
  {
  }

  lemma ResumingTwice(m: Transfers, a: set<TransferId>, b: set<TransferId>)
    ensures Resuming(Resuming(m, a), b) == Resuming(m, a + b)
  {
  }

  /** Only pausable transfers are paused. */
  predicate OnlyPausable(m: Transfers) {
    forall id :: id in m && m[id].isPaused ==> m[id].canPause
  }

  lemma ApplyKeepsOnlyPausable(c: Controller, op: Operation)
    requires Possible(c, op) && OnlyPausable(c.transfers)
    ensures OnlyPausable(Apply(c, op).transfers)
  {
    hide PausedIds;
    if op.Resumes? {
      ResumeEffect(c, op.ids);
    }
  }

  /** The changes of the drift over a run. */
  function AddedBy(ops: seq<Operation>): int
    requires Feasible(ops)
  {
    if ops == [] then 0 else
      AddedBy(ops[..|ops| - 1]) + Added(Run(ops[..|ops| - 1]), ops[|ops| - 1])
  }

  /** In every run, transfers paused and resumed by themselves included, no unpausable transfer is paused, and the count is off by exactly what the operations added. */
  lemma {:induction false} RunDrift(ops: seq<Operation>)
    requires Feasible(ops)
    ensures OnlyPausable(Run(ops).transfers) && Drift(Run(ops)) == AddedBy(ops)
  {
    hide OnlyPausable, Drift, Added, Apply;
    if ops == [] {
      EmptyIsExact();
    } else {
      var n := |ops| - 1;
      RunDrift(ops[..n]);
      ApplyKeepsOnlyPausable(Run(ops[..n]), ops[n]);
      DriftLaw(Run(ops[..n]), ops[n]);
    }
  }

  lemma EmptyIsExact()
    ensures Drift(EMPTY) == 0 && Inv(EMPTY) && OnlyPausable(EMPTY.transfers)
  {
    assert PausedIds(EMPTY.transfers) == {};
  }

  /** The count stays an upper bound, and Critical transfers run, exactly unless a transfer is paused by itself that the count does not cover or that is Critical. */
  lemma InvKeptIff(c: Controller, op: Operation)
    requires Possible(c, op) && Inv(c)
    ensures Inv(Apply(c, op)) <==>
              !(&& op.PausesHandle? && op.id in c.transfers && c.transfers[op.id].canPause && !c.transfers[op.id].isPaused
                && (Drift(c) == 0 || c.transfers[op.id].cls.Critical?))
  {
    hide Drift, Apply;
    DriftLaw(c, op);
    EligibleKeptIff(c, op);
  }

  lemma EligibleKeptIff(c: Controller, op: Operation)
    requires Possible(c, op) && Eligible(c.transfers)
    ensures Eligible(Apply(c, op).transfers) <==>
              !(op.PausesHandle? && op.id in c.transfers && c.transfers[op.id].canPause && c.transfers[op.id].cls.Critical?)
  {
    hide Drift, PausedIds;
    if op.Resumes? {
      ResumeEffect(c, op.ids);
    }
    if op.PausesHandle? && op.id in c.transfers && c.transfers[op.id].canPause && c.transfers[op.id].cls.Critical? {
      assert Apply(c, op).transfers[op.id].isPaused;
    }
  }

  /** In every run that pauses through the controller, Critical and non-pausable transfers are never paused, and the counter never falls below the paused ones. */
  lemma {:induction false} RunKeepsInv(ops: seq<Operation>)
    requires Feasible(ops) && forall k :: 0 <= k < |ops| ==> !ops[k].PausesHandle?
    ensures Inv(Run(ops))
  {
    hide Inv, Apply;
    if ops == [] {
      EmptyIsExact();
    } else {
      RunKeepsInv(ops[..|ops| - 1]);
      InvKeptIff(Run(ops[..|ops| - 1]), ops[|ops| - 1]);
    }
  }

  /** A transfer paused by itself and then unregistered takes the count below zero, which wraps around. */
  lemma PausingHandleWraps()
    ensures var ops := [Registers(1, Low, 10, true)] + [PausesHandle(1)] + [Unregisters(1)];
            Feasible(ops) && Run(ops).pausedCount == -1 && Run(ops).Shown() == 0xffff_ffff_ffff_ffff
  {
    hide Run, Feasible;
    OnePaused();
    var one := [Registers(1, Low, 10, true)];
    RunSnoc(one, PausesHandle(1));
    RunSnoc(one + [PausesHandle(1)], Unregisters(1));
  }

  /** The counter is exact after an operation exactly when everything was resumed, or it was exact before and the operation meets no paused transfer it miscounts. */
  lemma ExactAfterIff(c: Controller, op: Operation)
    requires Possible(c, op) && Inv(c)
    ensures Drift(Apply(c, op)) == 0 <==>
              if op.PausesHandle? && op.id in c.transfers && c.transfers[op.id].canPause && !c.transfers[op.id].isPaused
              then Drift(c) == 1
              else
                || op.ResumesAll?
                || (&& Drift(c) == 0
                    && (op.Pauses? ==> PausedIds(c.transfers) !! Preemptable(c.transfers, op.incoming))
                    && (op.Cleans? ==> PausedComplete(c.transfers) == {})
                    && (op.ResumesHandle? ==> op.id !in PausedIds(c.transfers)))
  {
    hide Drift, Apply, PausedIds, Preemptable, PausedComplete;
    DriftLaw(c, op);
    if op.Pauses? {
      DisjointIff(PausedIds(c.transfers), Preemptable(c.transfers, op.incoming));
    }
  }

  lemma RunSnoc(ops: seq<Operation>, op: Operation)
    requires Feasible(ops) && Possible(Run(ops), op)
    ensures Feasible(ops + [op]) && Run(ops + [op]) == Apply(Run(ops), op)
  {
    assert (ops + [op])[..|ops|] == ops;
  }

  /** A Low transfer of ten bytes, registered and paused. */
  const ONE_PAUSED := [Registers(1, Low, 10, true), Pauses(Critical)]

  lemma OnePaused()
    ensures Feasible([Registers(1, Low, 10, true)])
    ensures Run([Registers(1, Low, 10, true)]) == Controller(map[1 := Transfer(Low, 10, 0, true, false)], 0, 0)
    ensures Feasible(ONE_PAUSED)
    ensures Run(ONE_PAUSED) == Controller(map[1 := Transfer(Low, 10, 0, true, true)], 1, 1)
  {
    var op := Registers(1, Low, 10, true);
    RunSnoc([], op);
    assert [] + [op] == [op];
    RunSnoc([op], Pauses(Critical));
    assert [op] + [Pauses(Critical)] == ONE_PAUSED;
    assert Preemptable(Run([op]).transfers, Critical) == {1};
  }

  /** Pausing again counts the one paused transfer twice. */
  lemma PausingTwiceDrifts()
    ensures var ops := ONE_PAUSED + [Pauses(Critical)];
            Feasible(ops) && Run(ops).pausedCount == 2 && PausedIds(Run(ops).transfers) == {1}
  {
    hide Run, Feasible;
    OnePaused();
    RunSnoc(ONE_PAUSED, Pauses(Critical));
    assert Preemptable(Run(ONE_PAUSED).transfers, Critical) == {1};
  }

  /** Cleaning up a paused transfer leaves the count behind. */
  lemma CleaningUpDrifts()
    ensures var ops := ONE_PAUSED + [Sends(1, 10)] + [Cleans];
            Feasible(ops) && Run(ops).pausedCount == 1 && Run(ops).transfers == map[]
  {
    hide Run, Feasible;
    OnePaused();
    RunSnoc(ONE_PAUSED, Sends(1, 10));
    RunSnoc(ONE_PAUSED + [Sends(1, 10)], Cleans);
  }

  /** Sending lowers what is left by the bytes sent, down to nothing, and a transfer is complete when nothing is left. */
  lemma SendingLowersRest(c: Controller, id: TransferId, bytes: nat)
    requires id in c.transfers
    ensures var left := c.transfers[id].BytesRemaining();
            RecordSent(c, id, bytes).transfers[id].BytesRemaining() == if bytes <= left then left - bytes else 0
    ensures c.transfers[id].IsComplete() <==> c.transfers[id].BytesRemaining() == 0
  {
  }

  /** The pauses of a run that found something to pause. */
  function Preemptions(ops: seq<Operation>): nat
    requires Feasible(ops)
  {
    if ops == [] then 0 else
      var op := ops[|ops| - 1];
      Preemptions(ops[..|ops| - 1])
      + if op.Pauses? && Preemptable(Run(ops[..|ops| - 1]).transfers, op.incoming) != {} then 1 else 0
  }

  /** In every run the preemption count is the number of pauses that found something to pause. */
  lemma {:induction false} PreemptionsAreCounted(ops: seq<Operation>)
    requires Feasible(ops)
    ensures Run(ops).preemptionCount == Preemptions(ops)
  {
    if ops != [] {
      var c, op := Run(ops[..|ops| - 1]), ops[|ops| - 1];
      PreemptionsAreCounted(ops[..|ops| - 1]);
      if op.Resumes? {
        ResumeKeepsPreemptions(c, op.ids);
      }
    }
  }

  lemma {:induction false} ResumeKeepsPreemptions(c: Controller, ids: seq<TransferId>)
    ensures Resume(c, ids).preemptionCount == c.preemptionCount
    decreases |ids|
  {
    if ids != [] {
      ResumeKeepsPreemptions(ResumeOne(c, ids[0]), ids[1..]);
    }
  }

  // --- The documented rule ---

  /** Whether a pause stops a running transfer. */
  ghost predicate StopsRunning(c: Controller, incoming: QoSClass) {
    exists id :: id in c.transfers && !c.transfers[id].isPaused && PauseBelow(c, incoming).transfers[id].isPaused
  }

  /** A pause stops a running transfer that the rule would let run exactly when traffic below High meets one it can preempt. */
  lemma BreaksRuleIff(c: Controller, incoming: QoSClass)
    ensures StopsRunning(c, incoming) && !ShouldPreempt(c.transfers, incoming) <==>
              && !incoming.Critical? && !incoming.High?
              && Preemptable(c.transfers, incoming) - PausedIds(c.transfers) != {}
  {
    hide Transfer.CanBePreemptedBy;
    var running := Preemptable(c.transfers, incoming) - PausedIds(c.transfers);
    if running != {} {
      var id :| id in running;
      assert id in c.transfers && !c.transfers[id].isPaused && PauseBelow(c, incoming).transfers[id].isPaused;
    }
    if id :| id in c.transfers && !c.transfers[id].isPaused && PauseBelow(c, incoming).transfers[id].isPaused {
      assert id in running;
    }
  }

  /** Normal traffic stops a running Low transfer, although it must not preempt. */
  lemma NormalStopsLow()
    ensures var ops := [Registers(1, Low, 10, true)];
            && Feasible(ops) && !ShouldPreempt(Run(ops).transfers, Normal)
            && StopsRunning(Run(ops), Normal) && PauseBelow(Run(ops), Normal).transfers[1].isPaused
  {
    hide Run, Feasible;
    var ops := [Registers(1, Low, 10, true)];
    OnePaused();
    assert 1 in Preemptable(Run(ops).transfers, Normal);
    assert PauseBelow(Run(ops), Normal).transfers[1].isPaused;
  }

  // --- Pausing and resuming ---

  /** The bytes still to send by the transfers in `ids`. */
  ghost function Remaining(m: Transfers, ids: set<TransferId>): nat
    requires ids <= m.Keys
  {
    if ids == {} then 0 else
      var id :| id in ids;
      m[id].BytesRemaining() + Remaining(m, ids - {id})
  }

  lemma {:induction false} RemainingSplit(m: Transfers, ids: set<TransferId>, id: TransferId)
    requires ids <= m.Keys && id in ids
    ensures Remaining(m, ids) == m[id].BytesRemaining() + Remaining(m, ids - {id})
  {
    var first :| first in ids && Remaining(m, ids) == m[first].BytesRemaining() + Remaining(m, ids - {first});
    if first != id {
      RemainingSplit(m, ids - {first}, id);
      RemainingSplit(m, ids - {id}, first);
      assert ids - {first} - {id} == ids - {id} - {first};
    }
  }

  lemma {:induction false} RemainingSame(m: Transfers, m': Transfers, ids: set<TransferId>)
    requires ids <= m.Keys && ids <= m'.Keys
    requires forall id :: id in ids ==> m[id].BytesRemaining() == m'[id].BytesRemaining()
    ensures Remaining(m, ids) == Remaining(m', ids)
  {
    if ids != {} {
      var id :| id in ids;
      RemainingSplit(m, ids, id);
      RemainingSplit(m', ids, id);
      RemainingSame(m, m', ids - {id});
    }
  }

  /** The running transfers of the classes below `incoming`. */
  function RunningBelow(m: Transfers, incoming: QoSClass): set<TransferId> {
    set id | id in m && incoming.CanPreempt(m[id].cls) && !m[id].isPaused
  }

  function UnpausableBelow(m: Transfers, incoming: QoSClass): set<TransferId> {
    set id | id in m && incoming.CanPreempt(m[id].cls) && !m[id].canPause
  }

  /** After pausing, nothing is left to preempt, and only transfers that cannot pause still use bandwidth below the class. */
  lemma PauseSilences(c: Controller, incoming: QoSClass)
    requires OnlyPausable(c.transfers)
    ensures !ShouldPreempt(PauseBelow(c, incoming).transfers, incoming)
    ensures RunningBelow(PauseBelow(c, incoming).transfers, incoming) == UnpausableBelow(c.transfers, incoming)
    ensures Remaining(PauseBelow(c, incoming).transfers, RunningBelow(PauseBelow(c, incoming).transfers, incoming))
         == Remaining(c.transfers, UnpausableBelow(c.transfers, incoming))
  {
    var c' := PauseBelow(c, incoming);
    var ids := UnpausableBelow(c.transfers, incoming);
    assert RunningBelow(c'.transfers, incoming) == ids;
    RemainingSame(c'.transfers, c.transfers, ids);
  }

  /** Resuming what a pause returned gives the counter back; it gives the transfers back exactly when the pause found none paused. */
  lemma ResumeUndoesPause(c: Controller, incoming: QoSClass, ids: seq<TransferId>)
    requires Elements(ids) == Preemptable(c.transfers, incoming)
    ensures var c' := Resume(PauseBelow(c, incoming), ids);
            && c'.pausedCount == c.pausedCount
            && (c'.transfers == c.transfers <==> PausedIds(c.transfers) !! Preemptable(c.transfers, incoming))
  {
    hide Pausing, Resuming, PausedIds, Preemptable, Resume, Elements;
    var m, chosen := c.transfers, Preemptable(c.transfers, incoming);
    ResumeEffect(PauseBelow(c, incoming), ids);
    PauseDrift(c, incoming);
    PreemptableAreTransfers(m, incoming);
    PauseThenResume(m, chosen);
    SizeSplit(PausedIds(m), chosen);
  }

  lemma PreemptableAreTransfers(m: Transfers, incoming: QoSClass)
    ensures Preemptable(m, incoming) <= m.Keys
    ensures forall id :: id in m ==> (id in Preemptable(m, incoming) <==> m[id].CanBePreemptedBy(incoming))
  {
  }

  lemma PauseThenResume(m: Transfers, chosen: set<TransferId>)
    requires chosen <= m.Keys
    ensures var m' := Resuming(Pausing(m, chosen), chosen);
            && PausedIds(m') == PausedIds(m) - chosen
            && (m' == m <==> PausedIds(m) !! chosen)
  {
    var m' := Resuming(Pausing(m, chosen), chosen);
    if PausedIds(m) !! chosen {
      assert forall id :: id in m ==> m'[id] == m[id];
    } else {
      var id :| id in PausedIds(m) && id in chosen;
      assert m'[id] != m[id];
    }
  }

  // --- The controller ---

  class PreemptionController {
    var activeTransfers: Transfers
    /** Kept unwrapped, as in the pure state. */
    var pausedCount: int
    var preemptionCount: nat

    ghost function View(): Controller
      reads this
    {
      Controller(activeTransfers, pausedCount, preemptionCount)
    }

    constructor ()
      ensures View() == EMPTY
    {
      activeTransfers, pausedCount, preemptionCount := map[], 0, 0;
    }

    /** `minted` is the id drawn for the transfer. */
    method RegisterTransfer(cls: QoSClass, bytesTotal: nat, canPause: bool, minted: TransferId) returns (id: TransferId)
      requires minted !in activeTransfers
      modifies this`activeTransfers
      ensures id == minted && View() == Register(old(View()), id, cls, bytesTotal, canPause)
    {
      var transfer := Transfer(cls, bytesTotal, 0, canPause, false);
      activeTransfers := activeTransfers[minted := transfer];
      return minted;
    }

    method UnregisterTransfer(id: TransferId)
      modifies this
      ensures View() == Unregister(old(View()), id)
    {
      if id in activeTransfers {
        var transfer := activeTransfers[id];
        activeTransfers := activeTransfers - {id};
        if transfer.isPaused {
          pausedCount := pausedCount - 1;
        }
      }
    }

    /** Visits the transfers in no particular order; returns the matched ids, each once. */
    method PauseTransfersBelow(incoming: QoSClass) returns (paused: seq<TransferId>)
      modifies this
      ensures View() == PauseBelow(old(View()), incoming)
      ensures Elements(paused) == Preemptable(old(activeTransfers), incoming)
      ensures |paused| == |Preemptable(old(activeTransfers), incoming)|
    {
      hide Pausing, Preemptable, Elements;
      paused := PauseMatching(incoming);
      if paused != [] {
        preemptionCount := preemptionCount + 1;
      }
    }

    /** The loop over the transfers, in no particular order. */
    method PauseMatching(incoming: QoSClass) returns (paused: seq<TransferId>)
      modifies this`activeTransfers, this`pausedCount
      ensures activeTransfers == Pausing(old(activeTransfers), Preemptable(old(activeTransfers), incoming))
      ensures pausedCount == old(pausedCount) + |paused|
      ensures Elements(paused) == Preemptable(old(activeTransfers), incoming)
      ensures |paused| == |Preemptable(old(activeTransfers), incoming)|
    {
      hide *;
      ghost var m := activeTransfers;
      ghost var chosen := Preemptable(m, incoming);
      var todo := activeTransfers.Keys;
      paused := [];
      PreemptableAreTransfers(m, incoming);
      NoElements<TransferId>();
      ghost var done: set<TransferId> := {};
      PausingNone(m);
      while todo != {}
        invariant todo <= m.Keys && done !! todo && done <= chosen <= done + todo
        invariant activeTransfers == Pausing(m, done)
        invariant Elements(paused) == done && |paused| == |done|
        invariant pausedCount == old(pausedCount) + |paused|
      {
        var id :| id in todo;
        PausingOne(m, done, id);
        var hit := PauseIfMatched(id, incoming);
        if hit {
          ElementsSnoc(paused, id);
          SizeAdd(done, id);
          paused := paused + [id];
          done := done + {id};
        }
        todo := todo - {id};
      }
      assert done == chosen;
    }

    method PauseIfMatched(id: TransferId, incoming: QoSClass) returns (hit: bool)
      requires id in activeTransfers
      modifies this`activeTransfers, this`pausedCount
      ensures var transfer := old(activeTransfers)[id];
              && hit == transfer.CanBePreemptedBy(incoming)
              && activeTransfers == (if hit then old(activeTransfers)[id := transfer.(isPaused := true)]
                                     else old(activeTransfers))
      ensures pausedCount == if hit then old(pausedCount) + 1 else old(pausedCount)
    {
      hit := activeTransfers[id].CanBePreemptedBy(incoming);
      if hit {
        if activeTransfers[id].canPause && !activeTransfers[id].isPaused {
          activeTransfers := activeTransfers[id := activeTransfers[id].(isPaused := true)];
        } else {
          assert activeTransfers[id].(isPaused := true) == activeTransfers[id];
          assert activeTransfers[id := activeTransfers[id]] == activeTransfers;
        }
        pausedCount := pausedCount + 1;
      }
    }

    method ResumeTransfers(ids: seq<TransferId>)
      modifies this
      ensures View() == Resume(old(View()), ids)
    {
      assert ids[0..] == ids;
      for i := 0 to |ids|
        invariant Resume(View(), ids[i..]) == Resume(old(View()), ids)
      {
        assert ids[i..][0] == ids[i] && ids[i..][1..] == ids[i + 1..];
        if ids[i] in activeTransfers {
          if activeTransfers[ids[i]].isPaused {
            activeTransfers := activeTransfers[ids[i] := activeTransfers[ids[i]].(isPaused := false)];
            pausedCount := pausedCount - 1;
          }
        }
      }
    }

    /** Visits the transfers in no particular order. */
    method ResumeAllTransfers()
      modifies this
      ensures View() == ResumeAll(old(View()))
    {
      hide Resuming;
      ghost var m := activeTransfers;
      var todo := activeTransfers.Keys;
      ResumingNone(m, m.Keys - todo);
      while todo != {}
        invariant todo <= m.Keys && activeTransfers == Resuming(m, m.Keys - todo)
        invariant pausedCount == old(pausedCount) && preemptionCount == old(preemptionCount)
      {
        var id :| id in todo;
        ResumingOne(m, m.Keys - todo, id);
        assert m.Keys - (todo - {id}) == m.Keys - todo + {id};
        if activeTransfers[id].isPaused {
          activeTransfers := activeTransfers[id := activeTransfers[id].(isPaused := false)];
        }
        todo := todo - {id};
      }
      assert m.Keys - todo == m.Keys;
      pausedCount := 0;
    }

    method CleanupCompleted() returns (removed: nat)
      modifies this`activeTransfers
      ensures View() == CleanUp(old(View()))
      ensures removed == |old(activeTransfers)| - |activeTransfers|
    {
      var before := activeTransfers;
      activeTransfers := map id | id in before && !before[id].IsComplete() :: before[id];
      assert activeTransfers.Keys <= before.Keys;
      assert before.Keys == activeTransfers.Keys + (before.Keys - activeTransfers.Keys);
      removed := |before| - |activeTransfers|;
    }

    /** `pause` on the transfer that `get_transfer` hands out. */
    method PauseTransfer(id: TransferId)
      modifies this`activeTransfers
      ensures View() == PauseHandle(old(View()), id)
    {
      if id in activeTransfers {
        var transfer := activeTransfers[id];
        if transfer.canPause && !transfer.isPaused {
          activeTransfers := activeTransfers[id := transfer.(isPaused := true)];
        } else {
          assert transfer.canPause ==> activeTransfers[id := transfer.(isPaused := true)] == activeTransfers;
        }
      }
    }

    /** `resume` on the transfer that `get_transfer` hands out. */
    method ResumeTransfer(id: TransferId)
      modifies this`activeTransfers
      ensures View() == ResumeHandle(old(View()), id)
    {
      if id in activeTransfers {
        activeTransfers := activeTransfers[id := activeTransfers[id].(isPaused := false)];
      }
    }

    /** The bytes the running transfers below a class still have to send. */
    method BandwidthUsedBelow(incoming: QoSClass) returns (sum: nat)
      ensures sum == Remaining(activeTransfers, RunningBelow(activeTransfers, incoming))
    {
      var counted := RunningBelow(activeTransfers, incoming);
      var todo := counted;
      sum := 0;
      while todo != {}
        invariant todo <= counted
        invariant sum + Remaining(activeTransfers, todo) == Remaining(activeTransfers, counted)
      {
        var id :| id in todo;
        RemainingSplit(activeTransfers, todo, id);
        sum := sum + activeTransfers[id].BytesRemaining();
        todo := todo - {id};
      }
    }
  }

  lemma ResumingOne(m: Transfers, done: set<TransferId>, id: TransferId)
    requires id in m && id !in done
    ensures var p := Resuming(m, done);
            && id in p && p[id] == m[id]
            && Resuming(m, done + {id}) == if m[id].isPaused then p[id := m[id].(isPaused := false)] else p
  {
    if !m[id].isPaused {
      assert m[id].(isPaused := false) == m[id];
    }
  }

  lemma PausingNone(m: Transfers)
    ensures Pausing(m, {}) == m
  {
  }

  lemma PausingOne(m: Transfers, done: set<TransferId>, id: TransferId)
    requires id in m && id !in done
    ensures var p := Pausing(m, done);
            && id in p && p[id] == m[id]
            && Pausing(m, done + {id}) == p[id := m[id].(isPaused := true)]
  {
  }
}
