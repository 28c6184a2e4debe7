/**
 The synchronization-id protocol (dynamorio_client/main.cpp) as a step system: every thread
 numbers its own regions, and only the master's saves advance the shared count.  The events are
 the client's callbacks; the state of a thread is the part of its ThreadData they use.
 */
module Protocol {

  /** A thread's place in the order of creation: an id the system uses again is a new thread. */
  type Tid = nat

  /** firstId and curSynchId: the thread has saved exactly the regions firstId .. curSynchId-1. */
  datatype Ctl = Ctl(isMaster: bool, inSingle: bool, firstId: nat, curSynchId: nat)

  datatype Shared = Shared(inRoi: bool, roiHasEnded: bool, firstTimeCalled: bool, synchCount: nat)

  datatype Event =
    | ThreadInit(tid: Tid)
    | OmpParallel(tid: Tid)
    | Barrier(tid: Tid)
    | Single(tid: Tid)
    | RoiInit
    | RoiEnd(tid: Tid)
    | ThreadExit(tid: Tid)

  datatype Client = Client(shared: Shared, threads: map<Tid, Ctl>)

  const START := Client(Shared(false, false, true, 0), map[])

  // ---------- the callbacks on one thread and the shared state ----------

  function NewCtl(sh: Shared): Ctl {
    Ctl(sh.firstTimeCalled, false, sh.synchCount, sh.synchCount)
  }

  /** save_data: the thread moves to its next region; the master advances the shared count. */
  function Save(sh: Shared, c: Ctl): (Shared, Ctl) {
    (if c.isMaster then sh.(synchCount := sh.synchCount + 1) else sh, c.(curSynchId := c.curSynchId + 1))
  }

  function OnParallel(sh: Shared, c: Ctl): (Shared, Ctl) {
    if sh.inRoi then Save(sh, c) else (sh, c)
  }

  function OnBarrier(sh: Shared, c: Ctl): (Shared, Ctl) {
    if !sh.inRoi then (sh, c)
    else if !c.inSingle then Save(sh, c)
    else (sh, c.(inSingle := false))
  }

  function OnSingle(ignoreSingle: bool, sh: Shared, c: Ctl): (Shared, Ctl) {
    (sh, if sh.inRoi && ignoreSingle then c.(inSingle := true) else c)
  }

  function OnRoiEnd(sh: Shared, c: Ctl): (Shared, Ctl) {
    var ended := sh.(inRoi := false, roiHasEnded := true);
    if c.isMaster then Save(ended, c) else (ended, c)
  }

  function OnExit(sh: Shared, c: Ctl): (Shared, Ctl) {
    if c.isMaster then (sh, c) else Save(sh, c)
  }

  // ---------- all interleavings ----------

  /** An event can happen: new threads have new ids, the others are known. */
  predicate Enabled(s: Client, e: Event) {
    match e
    case ThreadInit(t) => t !in s.threads
    case RoiInit => true
    case _ => e.tid in s.threads
  }

  function Put(s: Client, t: Tid, r: (Shared, Ctl)): Client {
    Client(r.0, s.threads[t := r.1])
  }

  /** One callback; an event that cannot happen changes nothing. */
  function Step(ignoreSingle: bool, s: Client, e: Event): Client {
    if !Enabled(s, e) then s
    else match e
    case ThreadInit(t) => Client(s.shared.(firstTimeCalled := false), s.threads[t := NewCtl(s.shared)])
    case OmpParallel(t) => Put(s, t, OnParallel(s.shared, s.threads[t]))
    case Barrier(t) => Put(s, t, OnBarrier(s.shared, s.threads[t]))
    case Single(t) => Put(s, t, OnSingle(ignoreSingle, s.shared, s.threads[t]))
    case RoiInit => s.(shared := s.shared.(inRoi := true))
    case RoiEnd(t) => Put(s, t, OnRoiEnd(s.shared, s.threads[t]))
    case ThreadExit(t) => Put(s, t, OnExit(s.shared, s.threads[t]))
  }

  /** The state after a run, events in order. */
  function After(ignoreSingle: bool, es: seq<Event>): Client {
    if es == [] then START else Step(ignoreSingle, After(ignoreSingle, es[..|es| - 1]), es[|es| - 1])
  }

  /** The master exists once any thread does, is unique, and has saved exactly the regions
      0 .. synchCount-1. */
  ghost predicate MasterCounts(s: Client) {
    && (s.shared.firstTimeCalled <==> s.threads == map[])
    && (s.shared.firstTimeCalled ==> s.shared.synchCount == 0)
    && (forall t :: t in s.threads && s.threads[t].isMaster ==>
         s.threads[t].firstId == 0 && s.threads[t].curSynchId == s.shared.synchCount)
    && (forall t, u :: t in s.threads && u in s.threads && s.threads[t].isMaster && s.threads[u].isMaster ==> t == u)
    && (s.threads != map[] ==> exists t :: t in s.threads && s.threads[t].isMaster)
    && (forall t :: t in s.threads ==> s.threads[t].firstId <= s.threads[t].curSynchId)
  }

  lemma StepKeepsMaster(ignoreSingle: bool, s: Client, e: Event)
    requires MasterCounts(s)
    ensures MasterCounts(Step(ignoreSingle, s, e))
  {
    if Enabled(s, e) {
      match e
      case ThreadInit(t) => InitKeepsMaster(ignoreSingle, s, t);
      case RoiInit =>
        assert s.threads != map[] ==> exists t :: t in Step(ignoreSingle, s, e).threads && s.threads[t].isMaster;
      case _ => CallKeepsMaster(ignoreSingle, s, e);
    }
  }

  lemma InitKeepsMaster(ignoreSingle: bool, s: Client, t: Tid)
    requires MasterCounts(s) && t !in s.threads
    ensures MasterCounts(Step(ignoreSingle, s, ThreadInit(t)))
  {
    var s' := Step(ignoreSingle, s, ThreadInit(t));
    if s.threads == map[] {
      assert s'.threads[t].isMaster;
    } else {
      var m :| m in s.threads && s.threads[m].isMaster;
      assert m in s'.threads && s'.threads[m].isMaster;
    }
  }

  /** What a callback of a known thread does to the counts: only the master moves the shared count,
      and in step with its own. */
  ghost predicate InStep(sh: Shared, c: Ctl, r: (Shared, Ctl)) {
    && r.0.firstTimeCalled == sh.firstTimeCalled && r.1.isMaster == c.isMaster && r.1.firstId == c.firstId
    && c.curSynchId <= r.1.curSynchId
    && r.0.synchCount - sh.synchCount == if c.isMaster then r.1.curSynchId - c.curSynchId else 0
  }

  lemma PutKeepsMaster(s: Client, t: Tid, r: (Shared, Ctl))
    requires MasterCounts(s) && t in s.threads && InStep(s.shared, s.threads[t], r)
    ensures MasterCounts(Put(s, t, r))
  {
    var m :| m in s.threads && s.threads[m].isMaster;
    assert m in Put(s, t, r).threads && Put(s, t, r).threads[m].isMaster;
  }

  lemma CallKeepsMaster(ignoreSingle: bool, s: Client, e: Event)
    requires MasterCounts(s) && Enabled(s, e) && !e.ThreadInit? && !e.RoiInit?
    ensures MasterCounts(Step(ignoreSingle, s, e))
  {
    hide MasterCounts;
    match e
    case OmpParallel(t) => PutKeepsMaster(s, t, OnParallel(s.shared, s.threads[t]));
    case Barrier(t) => PutKeepsMaster(s, t, OnBarrier(s.shared, s.threads[t]));
    case Single(t) => PutKeepsMaster(s, t, OnSingle(ignoreSingle, s.shared, s.threads[t]));
    case RoiEnd(t) => PutKeepsMaster(s, t, OnRoiEnd(s.shared, s.threads[t]));
    case ThreadExit(t) => PutKeepsMaster(s, t, OnExit(s.shared, s.threads[t]));
  }

  /** Over every interleaving of every set of threads: the master's regions are exactly
      0 .. synchCount-1, so looking them up by number cannot fail. */
  lemma {:induction false} MasterHasAllRegions(ignoreSingle: bool, es: seq<Event>)
    ensures MasterCounts(After(ignoreSingle, es))
  {
    if es != [] {
      MasterHasAllRegions(ignoreSingle, es[..|es| - 1]);
      StepKeepsMaster(ignoreSingle, After(ignoreSingle, es[..|es| - 1]), es[|es| - 1]);
    }
  }
}
