/**
 Bulk-synchronous runs of the protocol: between two synchronization points of the program every
 live thread runs each callback once, in any order.  The region numbers of the threads then line
 up, except for a thread whose data is created after the master has saved in the same round.
 */
module Rounds {
  import opened Protocol

  datatype Kind = ParallelRound | BarrierRound | SingleRound

  /** A run in progress: the round's kind, the threads of the team, those that have run this
      round's callback, and those created after the master's save. */
  datatype Team = Team(client: Client, kind: Kind, live: set<Tid>, arrived: set<Tid>, late: set<Tid>)

  datatype Move =
    | Join(tid: Tid)
    | Arrive(tid: Tid)
    | Leave(tid: Tid)
    | NextRound(kind: Kind)
    | StartRoi
    | EndRoi(tid: Tid)

  predicate IsMaster(s: Team, t: Tid) {
    t in s.client.threads && s.client.threads[t].isMaster
  }

  /** The master has already saved in this round. */
  predicate MasterArrived(s: Team) {
    exists m :: m in s.arrived && IsMaster(s, m)
  }

  predicate Between(s: Team) {
    s.arrived == {} || s.arrived == s.live
  }

  function ArrivalEvent(k: Kind, t: Tid): Event {
    match k
    case ParallelRound => OmpParallel(t)
    case BarrierRound => Barrier(t)
    case SingleRound => Single(t)
  }

  /** Some live thread is still waiting for the barrier of a single construct. */
  predicate SinglePending(s: Team) {
    exists t :: t in s.live && t in s.client.threads && s.client.threads[t].inSingle
  }

  /** Teams grow in parallel rounds only, with no single construct open; the region of interest
      is entered and left between rounds; the master stays. */
  predicate Allowed(s: Team, m: Move) {
    var sh := s.client.shared;
    match m
    case Join(t) => t !in s.client.threads && s.kind == ParallelRound && !SinglePending(s) && !sh.roiHasEnded
    case Arrive(t) => t in s.live - s.arrived && t in s.client.threads
    case Leave(t) => t in s.live && t in s.client.threads && !IsMaster(s, t)
    case NextRound(k) => s.arrived == s.live
    case StartRoi => s.arrived == {} && !sh.inRoi && !sh.roiHasEnded
    case EndRoi(t) => s.arrived == {} && sh.inRoi && t in s.live && IsMaster(s, t)
  }

  function Next(ig: bool, s: Team, m: Move): Team {
    if !Allowed(s, m) then s
    else match m
    case Join(t) =>
      s.(client := Step(ig, s.client, ThreadInit(t)), live := s.live + {t},
         late := if s.client.shared.inRoi && MasterArrived(s) then s.late + {t} else s.late)
    case Arrive(t) => s.(client := Step(ig, s.client, ArrivalEvent(s.kind, t)), arrived := s.arrived + {t})
    case Leave(t) =>
      s.(client := Step(ig, s.client, ThreadExit(t)), live := s.live - {t}, arrived := s.arrived - {t})
    case NextRound(k) => s.(kind := k, arrived := {})
    case StartRoi => s.(client := Step(ig, s.client, RoiInit))
    case EndRoi(t) => s.(client := Step(ig, s.client, RoiEnd(t)))
  }

  const EMPTY := Team(START, ParallelRound, {}, {}, {})

  function After(ig: bool, ms: seq<Move>): Team {
    if ms == [] then EMPTY else Next(ig, After(ig, ms[..|ms| - 1]), ms[|ms| - 1])
  }

  function One(b: bool): nat { if b then 1 else 0 }

  /** Arriving in this round saves a region. */
  predicate Saving(s: Team, pending: bool) {
    s.client.shared.inRoi && (s.kind == ParallelRound || (s.kind == BarrierRound && !pending))
  }

  /** The in_single flag of a live thread, given whether the team entered the round with a single
      construct open. */
  predicate Flag(ig: bool, s: Team, pending: bool, t: Tid) {
    if s.client.shared.inRoi && s.kind == SingleRound && ig && t in s.arrived then true
    else if s.client.shared.inRoi && s.kind == BarrierRound && t in s.arrived then false
    else pending
  }

  ghost predicate Shaped(s: Team) {
    && MasterCounts(s.client)
    && s.arrived <= s.live <= s.client.threads.Keys
    && s.late <= s.client.threads.Keys
    && (forall t :: IsMaster(s, t) ==> t in s.live && t !in s.late)
    && (s.client.shared.roiHasEnded ==> !s.client.shared.inRoi)
  }

  /** base is the number every punctual thread had at the start of the round, pending whether the
      team entered it with a single construct open. */
  ghost predicate Numbered(s: Team, base: nat, pending: bool)
    requires Shaped(s)
  {
    if s.client.shared.roiHasEnded then
      && s.client.shared.synchCount == base + 1
      && (forall t :: t in s.live ==>
           s.client.threads[t].curSynchId == base + One(s.client.threads[t].isMaster) + One(t in s.late))
    else
      && s.client.shared.synchCount == base + One(Saving(s, pending) && MasterArrived(s))
      && (forall t :: t in s.live ==>
           s.client.threads[t].curSynchId == base + One(Saving(s, pending) && t in s.arrived) + One(t in s.late))
  }

  ghost predicate Aligned(ig: bool, s: Team, base: nat, pending: bool)
    requires Shaped(s)
  {
    && Numbered(s, base, pending)
    && (forall t :: t in s.live ==> s.client.threads[t].inSingle == Flag(ig, s, pending, t))
    && (s.live == {} ==> !pending)
  }

  // ---------- every move keeps the numbers aligned ----------

  lemma JoinShaped(ig: bool, s: Team, t: Tid)
    requires Shaped(s) && Allowed(s, Join(t))
    ensures Shaped(Next(ig, s, Join(t)))
    ensures MasterArrived(Next(ig, s, Join(t))) <==> MasterArrived(s)
  {
    var s' := Next(ig, s, Join(t));
    StepKeepsMaster(ig, s.client, ThreadInit(t));
    assert forall u :: u in s.arrived ==> (IsMaster(s, u) <==> IsMaster(s', u));
  }

  lemma JoinKeeps(ig: bool, s: Team, base: nat, pending: bool, t: Tid)
    requires Shaped(s) && Aligned(ig, s, base, pending) && Allowed(s, Join(t))
    ensures var s' := Next(ig, s, Join(t)); Shaped(s') && Aligned(ig, s', base, pending)
  {
    hide MasterCounts, MasterArrived;
    JoinShaped(ig, s, t);
    if s.live != {} {
      var u :| u in s.live;
      assert u in s.client.threads && s.client.threads[u].inSingle == pending;
    }
  }

  lemma MasterNotYet(s: Team, t: Tid)
    requires Shaped(s) && t !in s.arrived
    ensures IsMaster(s, t) ==> !MasterArrived(s)
  {
  }

  lemma ArriveShaped(ig: bool, s: Team, t: Tid)
    requires Shaped(s) && Allowed(s, Arrive(t))
    ensures Shaped(Next(ig, s, Arrive(t)))
    ensures MasterArrived(Next(ig, s, Arrive(t))) <==> MasterArrived(s) || IsMaster(s, t)
    ensures IsMaster(s, t) ==> !MasterArrived(s)
  {
    hide MasterCounts;
    var s' := Next(ig, s, Arrive(t));
    StepKeepsMaster(ig, s.client, ArrivalEvent(s.kind, t));
    MasterNotYet(s, t);
    assert forall u :: IsMaster(s, u) <==> IsMaster(s', u);
    if IsMaster(s, t) {
      assert t in s'.arrived && IsMaster(s', t);
    }
    if MasterArrived(s) {
      var m :| m in s.arrived && IsMaster(s, m);
      assert m in s'.arrived && IsMaster(s', m);
    }
  }

  lemma ArriveKeeps(ig: bool, s: Team, base: nat, pending: bool, t: Tid)
    requires Shaped(s) && Aligned(ig, s, base, pending) && Allowed(s, Arrive(t))
    ensures var s' := Next(ig, s, Arrive(t)); Shaped(s') && Aligned(ig, s', base, pending)
  {
    hide MasterCounts, MasterArrived;
    ArriveShaped(ig, s, t);
    match s.kind
    case ParallelRound => ArriveParallel(ig, s, base, pending, t);
    case BarrierRound => ArriveBarrier(ig, s, base, pending, t);
    case SingleRound => ArriveSingle(ig, s, base, pending, t);
  }

  lemma ArriveParallel(ig: bool, s: Team, base: nat, pending: bool, t: Tid)
    requires Shaped(s) && Aligned(ig, s, base, pending) && Allowed(s, Arrive(t)) && s.kind == ParallelRound
    requires Shaped(Next(ig, s, Arrive(t)))
    requires MasterArrived(Next(ig, s, Arrive(t))) <==> MasterArrived(s) || IsMaster(s, t)
    requires IsMaster(s, t) ==> !MasterArrived(s)
    ensures Aligned(ig, Next(ig, s, Arrive(t)), base, pending)
  {
    hide MasterCounts, MasterArrived;
  }

  lemma ArriveBarrier(ig: bool, s: Team, base: nat, pending: bool, t: Tid)
    requires Shaped(s) && Aligned(ig, s, base, pending) && Allowed(s, Arrive(t)) && s.kind == BarrierRound
    requires Shaped(Next(ig, s, Arrive(t)))
    requires MasterArrived(Next(ig, s, Arrive(t))) <==> MasterArrived(s) || IsMaster(s, t)
    requires IsMaster(s, t) ==> !MasterArrived(s)
    ensures Aligned(ig, Next(ig, s, Arrive(t)), base, pending)
  {
    hide MasterCounts, MasterArrived;
  }

  lemma ArriveSingle(ig: bool, s: Team, base: nat, pending: bool, t: Tid)
    requires Shaped(s) && Aligned(ig, s, base, pending) && Allowed(s, Arrive(t)) && s.kind == SingleRound
    requires Shaped(Next(ig, s, Arrive(t)))
    ensures Aligned(ig, Next(ig, s, Arrive(t)), base, pending)
  {
    hide MasterCounts, MasterArrived;
  }

  lemma LeaveShaped(ig: bool, s: Team, t: Tid)
    requires Shaped(s) && Allowed(s, Leave(t))
    ensures Shaped(Next(ig, s, Leave(t))) && Next(ig, s, Leave(t)).live != {}
    ensures MasterArrived(Next(ig, s, Leave(t))) <==> MasterArrived(s)
  {
    var s' := Next(ig, s, Leave(t));
    StepKeepsMaster(ig, s.client, ThreadExit(t));
    assert forall u :: IsMaster(s, u) <==> IsMaster(s', u);
    if MasterArrived(s) {
      var m :| m in s.arrived && IsMaster(s, m);
      assert m in s'.arrived;
    }
    assert s.client.threads != map[];
    var m :| m in s.client.threads && s.client.threads[m].isMaster;
    assert IsMaster(s, m) && m in s'.live;
  }

  lemma LeaveKeeps(ig: bool, s: Team, base: nat, pending: bool, t: Tid)
    requires Shaped(s) && Aligned(ig, s, base, pending) && Allowed(s, Leave(t))
    ensures var s' := Next(ig, s, Leave(t)); Shaped(s') && Aligned(ig, s', base, pending)
  {
    hide MasterCounts, MasterArrived;
    LeaveShaped(ig, s, t);
  }

  /** The number and the open single construct the team enters the next round with. */
  function NextBase(s: Team, base: nat, pending: bool): nat {
    base + One(Saving(s, pending) && s.live != {} && !s.client.shared.roiHasEnded)
  }

  function NextPending(ig: bool, s: Team, pending: bool): bool {
    if s.live == {} || !s.client.shared.inRoi || s.kind == ParallelRound then pending
    else if s.kind == SingleRound then pending || ig
    else false
  }

  lemma NextRoundShaped(ig: bool, s: Team, k: Kind)
    requires Shaped(s) && Allowed(s, NextRound(k))
    ensures Shaped(Next(ig, s, NextRound(k))) && !MasterArrived(Next(ig, s, NextRound(k)))
    ensures s.live != {} ==> MasterArrived(s)
    ensures MasterArrived(s) ==> s.live != {}
  {
    var s' := Next(ig, s, NextRound(k));
    assert forall u :: IsMaster(s, u) <==> IsMaster(s', u);
    if s.live != {} {
      assert s.client.threads != map[];
      var m :| m in s.client.threads && s.client.threads[m].isMaster;
      assert IsMaster(s, m) && m in s.arrived;
    }
  }

  lemma NextRoundKeeps(ig: bool, s: Team, base: nat, pending: bool, k: Kind)
    requires Shaped(s) && Aligned(ig, s, base, pending) && Allowed(s, NextRound(k))
    ensures var s' := Next(ig, s, NextRound(k));
            Shaped(s') && Aligned(ig, s', NextBase(s, base, pending), NextPending(ig, s, pending))
  {
    hide MasterCounts, MasterArrived;
    NextRoundShaped(ig, s, k);
    if s.live != {} {
      var u :| u in s.live;
      assert u in s.client.threads;
    }
  }

  lemma StartRoiKeeps(ig: bool, s: Team, base: nat, pending: bool)
    requires Shaped(s) && Aligned(ig, s, base, pending) && Allowed(s, StartRoi)
    ensures var s' := Next(ig, s, StartRoi); Shaped(s') && Aligned(ig, s', base, pending)
  {
    var s' := Next(ig, s, StartRoi);
    StepKeepsMaster(ig, s.client, RoiInit);
    assert forall u :: IsMaster(s, u) <==> IsMaster(s', u);
    assert !MasterArrived(s) && !MasterArrived(s');
  }

  lemma EndRoiKeeps(ig: bool, s: Team, base: nat, pending: bool, t: Tid)
    requires Shaped(s) && Aligned(ig, s, base, pending) && Allowed(s, EndRoi(t))
    ensures var s' := Next(ig, s, EndRoi(t)); Shaped(s') && Aligned(ig, s', base, pending)
  {
    var s' := Next(ig, s, EndRoi(t));
    StepKeepsMaster(ig, s.client, RoiEnd(t));
    assert forall u :: IsMaster(s, u) <==> IsMaster(s', u);
    assert !MasterArrived(s);
  }

  /** Over every bulk-synchronous run, in any arrival order, the numbers are aligned. */
  lemma {:induction false} RunsAreAligned(ig: bool, ms: seq<Move>) returns (base: nat, pending: bool)
    ensures Shaped(After(ig, ms)) && Aligned(ig, After(ig, ms), base, pending)
  {
    if ms == [] {
      return 0, false;
    }
    var s, m := After(ig, ms[..|ms| - 1]), ms[|ms| - 1];
    base, pending := RunsAreAligned(ig, ms[..|ms| - 1]);
    if Allowed(s, m) {
      match m
      case Join(t) => JoinKeeps(ig, s, base, pending, t);
      case Arrive(t) => ArriveKeeps(ig, s, base, pending, t);
      case Leave(t) => LeaveKeeps(ig, s, base, pending, t);
      case NextRound(k) =>
        NextRoundKeeps(ig, s, base, pending, k);
        base, pending := NextBase(s, base, pending), NextPending(ig, s, pending);
      case StartRoi => StartRoiKeeps(ig, s, base, pending);
      case EndRoi(t) => EndRoiKeeps(ig, s, base, pending, t);
    }
  }

  // ---------- what alignment means ----------

  /** Between rounds of the region of interest a live thread's next region number is the shared
      count exactly when it is punctual; a late one is one ahead for good. */
  lemma {:induction false} AgreeBetweenRounds(ig: bool, ms: seq<Move>, t: Tid)
    requires var s := After(ig, ms); t in s.live && Between(s) && !s.client.shared.roiHasEnded
    ensures var s := After(ig, ms);
            && t in s.client.threads
            && s.client.threads[t].curSynchId == s.client.shared.synchCount + One(t in s.late)
  {
    var s := After(ig, ms);
    var base, pending := RunsAreAligned(ig, ms);
    assert s.client.threads != map[];
    var m :| m in s.client.threads && s.client.threads[m].isMaster;
    assert IsMaster(s, m) && m in s.live;
  }

  /** Within a round, punctual threads differ by at most one. */
  lemma {:induction false} OneApartWithinRound(ig: bool, ms: seq<Move>, t: Tid, u: Tid)
    requires var s := After(ig, ms); t in s.live - s.late && u in s.live - s.late
    ensures var s := After(ig, ms);
            && t in s.client.threads && u in s.client.threads
            && s.client.threads[t].curSynchId <= s.client.threads[u].curSynchId + 1
  {
    var base, pending := RunsAreAligned(ig, ms);
  }

  /** A worker that exits after the end of the region of interest has then saved regions up to
      the shared count, like the master (one more if it was late). */
  lemma {:induction false} ExitAfterRoi(ig: bool, ms: seq<Move>, t: Tid)
    requires var s := After(ig, ms); s.client.shared.roiHasEnded && Allowed(s, Leave(t))
    ensures var s' := After(ig, ms + [Leave(t)]);
            && t in s'.client.threads
            && s'.client.threads[t].curSynchId == s'.client.shared.synchCount + One(t in s'.late)
  {
    var base, pending := RunsAreAligned(ig, ms);
    assert (ms + [Leave(t)])[..|ms|] == ms;
  }

  lemma {:induction false} AfterStep(ig: bool, ms: seq<Move>, m: Move)
    ensures After(ig, ms + [m]) == Next(ig, After(ig, ms), m)
  {
    assert (ms + [m])[..|ms|] == ms;
  }

  /** A thread created after the master's save of the same round is late: here worker 1. */
  lemma LateJoinHappens()
    ensures var s := After(false, [Join(0), StartRoi, Arrive(0), Join(1), Arrive(1)]);
            Between(s) && 1 in s.late &&
            s.client.threads == map[0 := Ctl(true, false, 0, 1), 1 := Ctl(false, false, 1, 2)]
  {
    AfterStep(false, [], Join(0));
    AfterStep(false, [Join(0)], StartRoi);
    AfterStep(false, [Join(0), StartRoi], Arrive(0));
    AfterStep(false, [Join(0), StartRoi, Arrive(0)], Join(1));
    AfterStep(false, [Join(0), StartRoi, Arrive(0), Join(1)], Arrive(1));
    hide After;
    var s1 := Next(false, EMPTY, Join(0));
    var s2 := Next(false, s1, StartRoi);
    var s3 := Next(false, s2, Arrive(0));
    assert IsMaster(s3, 0) && MasterArrived(s3);
    var s4 := Next(false, s3, Join(1));
    var s5 := Next(false, s4, Arrive(1));
    assert [] + [Join(0)] == [Join(0)] && [Join(0)] + [StartRoi] == [Join(0), StartRoi];
    assert [Join(0), StartRoi] + [Arrive(0)] == [Join(0), StartRoi, Arrive(0)];
    assert [Join(0), StartRoi, Arrive(0)] + [Join(1)] == [Join(0), StartRoi, Arrive(0), Join(1)];
    assert [Join(0), StartRoi, Arrive(0), Join(1)] + [Arrive(1)] == [Join(0), StartRoi, Arrive(0), Join(1), Arrive(1)];
  }
}
