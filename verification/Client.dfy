/**
 The client's callbacks (dynamorio_client/main.cpp) on the shared flags and on the calling
 thread's ThreadData.  Each one is proved to do to the shared state and to the thread exactly
 what the protocol's step functions say, so that after any run of callbacks the heap stands for
 the protocol's state after the logged events.
 */
module ClientCallbacks {
  import opened Common
  import opened ThreadDatas
  import opened Protocol
  import opened Addresses

  /** The control part of a thread's data. */
  ghost function ControlOf(data: ThreadData): Ctl
    reads data
  {
    Ctl(data.isMaster, data.inSingle, data.firstId, data.curSynchId)
  }

  /** The thread's regions once the current one is saved, whole and under this name. */
  ghost function WithCurrent(data: ThreadData, name: string): map<nat, Region>
    reads data
  {
    data.regions[data.curSynchId := Region(name, data.curInstrCount, data.curBbv, data.curLruHist)]
  }

  /** The current region has been saved under this name, and a new empty one has begun. */
  twostate predicate SavedAs(data: ThreadData, name: string)
    reads data
  {
    && data.saved == old(data.saved) + [old(data.open)] && data.open == Segment([], [])
    && data.regions == old(WithCurrent(data, name))
  }

  twostate predicate NothingSaved(data: ThreadData)
    reads data
  {
    data.saved == old(data.saved) && data.open == old(data.open) && data.regions == old(data.regions)
  }

  /** The threads' control states, each under its place in the list. */
  ghost function Controls(created: seq<ThreadData>): map<Tid, Ctl>
    reads created
  {
    map t: nat | t < |created| :: ControlOf(created[t])
  }

  /** Everything a thread's data consists of. */
  ghost function Parts(data: ThreadData): set<object>
    reads data.reuseDist.refList
  {
    {data, data.reuseDist, data.reuseDist.refList} + data.reuseDist.refList.repr
  }

  twostate lemma ControlKeys(created: seq<ThreadData>)
    ensures |created| !in old(Controls(created))
  {
  }

  ghost function Lists(created: seq<ThreadData>): set<object> {
    set x | x in created :: x.reuseDist.refList
  }

  ghost function AllParts(created: seq<ThreadData>): set<object>
    reads Lists(created)
  {
    set x, o | x in created && o in Parts(x) :: o
  }

  /** The threads' data are valid and share no part. */
  ghost predicate Separate(created: seq<ThreadData>)
    reads Lists(created), AllParts(created)
  {
    && (forall x | x in created :: assert Parts(x) <= AllParts(created); x.Valid())
    && (forall t, u :: 0 <= t < u < |created| ==> Parts(created[t]) !! Parts(created[u]))
  }

  twostate predicate Untouched(data: ThreadData)
    reads data, data.reuseDist, data.reuseDist.refList, data.reuseDist.refList.repr
  {
    unchanged(data, data.reuseDist, data.reuseDist.refList) && unchanged(old(data.reuseDist.refList.repr))
  }

  twostate lemma NoneTouched(created: seq<ThreadData>)
    requires old(Separate(created)) && forall x | x in created :: Untouched(x)
    ensures Separate(created) && Controls(created) == old(Controls(created))
  {
    hide ThreadData.Valid;
    forall x | x in created
      ensures x.Valid() && Parts(x) == old(Parts(x)) && ControlOf(x) == old(ControlOf(x))
    {
      assert old(x.Valid());
    }
  }

  /** A thread that changes alone, taking in only new parts, stays apart from the others. */
  twostate lemma StaysSeparate(created: seq<ThreadData>, new t: Tid)
    requires old(Separate(created)) && t < |created| && created[t].Valid()
    requires forall o | o in Parts(created[t]) && o !in old(Parts(created[t])) :: fresh(o)
    requires forall u | 0 <= u < |created| && u != t :: Untouched(created[u])
    ensures Separate(created)
    ensures Controls(created) == old(Controls(created))[t := ControlOf(created[t])]
  {
    hide ThreadData.Valid;
    forall u | 0 <= u < |created| && u != t
      ensures created[u].Valid() && Parts(created[u]) == old(Parts(created[u]))
      ensures Parts(created[u]) !! Parts(created[t])
      ensures ControlOf(created[u]) == old(ControlOf(created[u]))
    {
      assert old(created[u].Valid());
      assert old(Parts(created[u])) !! old(Parts(created[t]));
    }
  }

  twostate lemma JoinsSeparate(created: seq<ThreadData>, new data: ThreadData)
    requires old(Separate(created)) && data.Valid() && forall o | o in Parts(data) :: fresh(o)
    requires forall x | x in created :: Untouched(x)
    ensures Separate(created + [data])
    ensures Controls(created + [data]) == old(Controls(created))[|created| := ControlOf(data)]
  {
    hide ThreadData.Valid;
    forall x | x in created
      ensures x.Valid() && Parts(x) == old(Parts(x)) && ControlOf(x) == old(ControlOf(x))
    {
      assert old(x.Valid());
    }
  }

  class BarrierPointClient {
    var inRoi: bool
    var roiHasEnded: bool
    var roiStartDetected: bool
    var roiEndDetected: bool
    var firstTimeCalled: bool
    var roiInitOnce: bool
    var roiEndOnce: bool
    var synchCount: nat
    var threads: seq<ThreadData>
    const ignoreSingle: bool
    const traceMemBeforeRoi: bool
    const cacheLineMask: Word

    /** The data of every thread so far, in order of creation, and the callbacks so far. */
    ghost var created: seq<ThreadData>
    ghost var log: seq<Event>

    constructor (single: bool, memBeforeRoi: bool, lineSize: Word)
      ensures ignoreSingle == single && traceMemBeforeRoi == memBeforeRoi && roiInitOnce && roiEndOnce
      ensures cacheLineMask == LineMask(lineSize)
      ensures Consistent() && log == [] && created == [] && threads == [] && !roiStartDetected && !roiEndDetected
    {
      inRoi, roiHasEnded, roiStartDetected, roiEndDetected := false, false, false, false;
      firstTimeCalled, roiInitOnce, roiEndOnce, synchCount, threads := true, true, true, 0, [];
      ignoreSingle, traceMemBeforeRoi, cacheLineMask := single, memBeforeRoi, LineMask(lineSize);
      created, log := [], [];
    }

    function SharedState(): Shared
      reads this
    {
      Shared(inRoi, roiHasEnded, firstTimeCalled, synchCount)
    }

    /** The shared state and the control state of one thread. */
    ghost function Pair(data: ThreadData): (Shared, Ctl)
      reads this, data
    {
      (SharedState(), ControlOf(data))
    }

    /** The heap stands for the protocol's state after the logged callbacks; the list for the
        output files holds threads that exist, each once; all threads mask addresses alike. */
    ghost predicate Consistent()
      reads this, created, Lists(created), AllParts(created)
    {
      && Separate(created)
      && Client(SharedState(), Controls(created)) == After(ignoreSingle, log)
      && NoDuplicates(threads) && (forall x :: x in threads ==> x in created)
      && (forall x :: x in created ==> x.lineMask == cacheLineMask)
    }

    /** data belongs to thread t. */
    ghost predicate Owns(t: Tid, data: ThreadData)
      reads this, created, Lists(created), AllParts(created)
    {
      Consistent() && t < |created| && created[t] == data
    }

    /** What a callback may rely on about its thread and the others. */
    lemma Entering(data: ThreadData, t: Tid)
      requires Owns(t, data)
      ensures data.Valid() && data in created && NoDuplicates(threads) && (forall x :: x in threads ==> x in created)
      ensures forall u | 0 <= u < |created| && u != t :: created[u] != data
      ensures t in Controls(created) && Controls(created)[t] == ControlOf(data)
    {
      forall u | 0 <= u < |created| && u != t
        ensures created[u] != data
      {
        assert Parts(created[u]) !! Parts(created[t]);
      }
    }

    lemma Apart(t: Tid)
      requires Consistent() && t < |created|
      ensures forall u | 0 <= u < |created| && u != t :: Parts(created[u]) !! Parts(created[t])
    {
    }

    /** The callback e of thread t has done what the protocol says. */
    twostate lemma Performed(t: Tid, new e: Event, new r: (Shared, Ctl))
      requires old(Consistent()) && t < |created| && created == old(created)
      requires NoDuplicates(threads) && (forall x :: x in threads ==> x in created) && log == old(log) + [e]
      requires Step(ignoreSingle, old(Client(SharedState(), Controls(created))), e) ==
               Put(old(Client(SharedState(), Controls(created))), t, r)
      requires Pair(created[t]) == r && created[t].Valid()
      requires forall o | o in Parts(created[t]) && o !in old(Parts(created[t])) :: fresh(o)
      requires forall u | 0 <= u < |created| && u != t :: Untouched(created[u])
      ensures Consistent()
    {
      StaysSeparate(created, t);
      assert log[..|log| - 1] == old(log);
    }

    /** A thread has moved within its region. */
    twostate lemma MovedOn(t: Tid)
      requires old(Consistent()) && t < |created| && unchanged(this)
      requires Pair(created[t]) == old(Pair(created[t])) && created[t].Valid()
      requires forall o | o in Parts(created[t]) && o !in old(Parts(created[t])) :: fresh(o)
      requires forall u | 0 <= u < |created| && u != t :: Untouched(created[u])
      ensures Consistent()
    {
      hide ThreadData.Valid, Separate, After;
      StaysSeparate(created, t);
      assert old(Controls(created))[t := old(ControlOf(created[t]))] == old(Controls(created));
    }

    /** Nothing has happened to the threads and the flags the protocol knows. */
    twostate lemma Idle()
      requires old(Consistent()) && created == old(created) && threads == old(threads) && log == old(log)
      requires SharedState() == old(SharedState()) && forall x | x in created :: Untouched(x)
      ensures Consistent()
    {
      hide ThreadData.Valid, Separate, After;
      NoneTouched(created);
    }

    /** The region of interest has been entered. */
    twostate lemma Entered()
      requires old(Consistent()) && created == old(created) && threads == old(threads)
      requires log == old(log) + [RoiInit] && SharedState() == old(SharedState()).(inRoi := true)
      requires forall x | x in created :: Untouched(x)
      ensures Consistent()
    {
      hide ThreadData.Valid, Separate, Controls;
      NoneTouched(created);
      assert log[..|log| - 1] == old(log);
    }

    /** A thread has been created. */
    twostate lemma Joined(new data: ThreadData)
      requires old(Consistent()) && created == old(created) + [data] && threads == old(threads)
      requires log == old(log) + [ThreadInit(|old(created)|)]
      requires SharedState() == old(SharedState()).(firstTimeCalled := false)
      requires data.Valid() && (forall o | o in Parts(data) :: fresh(o)) && data.lineMask == cacheLineMask
      requires ControlOf(data) == NewCtl(old(SharedState()))
      requires forall x | x in old(created) :: Untouched(x)
      ensures Consistent()
    {
      hide ThreadData.Valid, Separate, Controls;
      JoinsSeparate(old(created), data);
      assert log[..|log| - 1] == old(log);
      assert |old(created)| !in old(Controls(created)) by {
        ControlKeys(old(created));
      }
    }

    method EventThreadInit(threadId: nat) returns (data: ThreadData)
      requires Consistent()
      modifies this`firstTimeCalled, this`created, this`log
      ensures fresh(Parts(data)) && data.Valid() && data.tid == threadId
      ensures data.reuseDist.trace == [] && data.regions == map[] && data.saved == []
      ensures data.open == Segment([], []) && data.buffer == [] && data.lineMask == cacheLineMask
      ensures data.isMaster == old(firstTimeCalled) && !data.inSingle && data.firstId == data.curSynchId == synchCount
      ensures ControlOf(data) == NewCtl(old(SharedState()))
      ensures SharedState() == old(SharedState()).(firstTimeCalled := false)
      ensures Consistent() && created == old(created) + [data] && log == old(log) + [ThreadInit(|old(created)|)]
    {
      hide ThreadData.Valid, Separate, After, Controls, BarrierPointClient.Consistent;
      var isMasterThread := false;
      if firstTimeCalled {
        isMasterThread := true;
        firstTimeCalled := false;
      }
      data := new ThreadData(threadId, isMasterThread, synchCount, cacheLineMask);
      log, created := log + [ThreadInit(|created|)], created + [data];
      Joined(data);
    }

    /** Saves the region the thread is in; nothing of it is lost. */
    method SaveData(data: ThreadData, ompName: string)
      requires data.Valid()
      modifies this`synchCount
      modifies data`regions, data`curSynchId, data`curInstrCount, data`curBbv, data`curLruHist, data`saved, data`open
      ensures SavedAs(data, ompName) && data.curSynchId == old(data.curSynchId) + 1
      ensures synchCount == old(synchCount) + if data.isMaster then 1 else 0
      ensures data.Valid() && Pair(data) == Save(old(SharedState()), old(ControlOf(data)))
    {
      hide ThreadData.Valid;
      data.SaveBarrier(ompName);
      if data.isMaster {
        synchCount := synchCount + 1;
      }
    }

    method EventOmpParallel(data: ThreadData, fName: string, ghost t: Tid)
      requires Owns(t, data)
      modifies this`synchCount, this`log
      modifies data`regions, data`curSynchId, data`curInstrCount, data`curBbv, data`curLruHist, data`saved, data`open
      ensures if inRoi then SavedAs(data, fName) else NothingSaved(data)
      ensures data.Valid() && Pair(data) == OnParallel(old(SharedState()), old(ControlOf(data)))
      ensures Owns(t, data) && log == old(log) + [OmpParallel(t)]
    {
      hide ThreadData.Valid, Separate, After, Controls, BarrierPointClient.Consistent;
      Entering(data, t);
      if inRoi {
        SaveData(data, fName);
      }
      log := log + [OmpParallel(t)];
      Performed(t, OmpParallel(t), Pair(data));
    }

    method EventBarrier(data: ThreadData, ghost t: Tid)
      requires Owns(t, data)
      modifies this`synchCount, this`log, data`inSingle
      modifies data`regions, data`curSynchId, data`curInstrCount, data`curBbv, data`curLruHist, data`saved, data`open
      ensures if inRoi && !old(data.inSingle) then SavedAs(data, "GOMP_barrier") else NothingSaved(data)
      ensures data.inSingle == (old(data.inSingle) && !inRoi)
      ensures data.Valid() && Pair(data) == OnBarrier(old(SharedState()), old(ControlOf(data)))
      ensures Owns(t, data) && log == old(log) + [Barrier(t)]
    {
      hide ThreadData.Valid, Separate, After, Controls, BarrierPointClient.Consistent;
      Entering(data, t);
      if inRoi {
        if !data.inSingle {
          SaveData(data, "GOMP_barrier");
        } else {
          data.inSingle := false;
        }
      }
      log := log + [Barrier(t)];
      Performed(t, Barrier(t), Pair(data));
    }

    method EventSingle(data: ThreadData, ghost t: Tid)
      requires Owns(t, data)
      modifies this`log, data`inSingle
      ensures data.inSingle == (old(data.inSingle) || (inRoi && ignoreSingle))
      ensures data.Valid() && Pair(data) == OnSingle(ignoreSingle, old(SharedState()), old(ControlOf(data)))
      ensures Owns(t, data) && log == old(log) + [Single(t)]
    {
      hide ThreadData.Valid, Separate, After, Controls, BarrierPointClient.Consistent;
      Entering(data, t);
      if inRoi && ignoreSingle {
        data.inSingle := true;
      }
      log := log + [Single(t)];
      Performed(t, Single(t), Pair(data));
    }

    /** Returns whether the source's assertion against a second region of interest holds. */
    method EventRoiInit() returns (ok: bool)
      requires Consistent()
      modifies this`roiStartDetected, this`inRoi, this`roiInitOnce, this`log
      ensures ok == old(roiInitOnce) && roiStartDetected && !roiInitOnce
      ensures SharedState() == if ok then old(SharedState()).(inRoi := true) else old(SharedState())
      ensures Consistent() && log == if ok then old(log) + [RoiInit] else old(log)
    {
      hide Separate, After, Controls, BarrierPointClient.Consistent;
      roiStartDetected := true;
      ok := roiInitOnce;
      if roiInitOnce {
        inRoi := true;
        roiInitOnce := false;
        log := log + [RoiInit];
        Entered();
      } else {
        Idle();
      }
    }

    /** Returns whether the source's assertions hold: one region of interest, ended by the master. */
    method EventRoiEnd(data: ThreadData, ghost t: Tid) returns (ok: bool)
      requires Owns(t, data)
      modifies this`roiEndDetected, this`inRoi, this`roiHasEnded, this`roiEndOnce, this`synchCount, this`log
      modifies data`regions, data`curSynchId, data`curInstrCount, data`curBbv, data`curLruHist, data`saved, data`open
      ensures if ok then SavedAs(data, "thread_exit") else NothingSaved(data)
      ensures ok == (old(roiEndOnce) && data.isMaster) && data.Valid() && roiEndDetected && !roiEndOnce
      ensures if old(roiEndOnce) then !inRoi && roiHasEnded else inRoi == old(inRoi) && roiHasEnded == old(roiHasEnded)
      ensures Pair(data) ==
              if old(roiEndOnce) then OnRoiEnd(old(SharedState()), old(ControlOf(data))) else old(Pair(data))
      ensures Owns(t, data) && log == if old(roiEndOnce) then old(log) + [RoiEnd(t)] else old(log)
    {
      hide ThreadData.Valid, Separate, After, Controls, BarrierPointClient.Consistent;
      Entering(data, t);
      roiEndDetected := true;
      ok := roiEndOnce;
      if roiEndOnce {
        ok := LeaveRoi(data);
        log := log + [RoiEnd(t)];
        Performed(t, RoiEnd(t), Pair(data));
      } else {
        Idle();
      }
    }

    method LeaveRoi(data: ThreadData) returns (ok: bool)
      requires data.Valid()
      modifies this`inRoi, this`roiHasEnded, this`roiEndOnce, this`synchCount
      modifies data`regions, data`curSynchId, data`curInstrCount, data`curBbv, data`curLruHist, data`saved, data`open
      ensures if ok then SavedAs(data, "thread_exit") else NothingSaved(data)
      ensures ok == data.isMaster && data.Valid() && !roiEndOnce && !inRoi && roiHasEnded
      ensures Pair(data) == OnRoiEnd(old(SharedState()), old(ControlOf(data)))
    {
      hide ThreadData.Valid;
      inRoi, roiHasEnded, roiEndOnce := false, true, false;
      ok := data.isMaster;
      if ok {
        SaveData(data, "thread_exit");
      }
    }

    /** The thread's last save, and its data handed over for the output files. */
    method EventThreadExit(data: ThreadData, ghost t: Tid)
      requires Owns(t, data) && data !in threads
      modifies this`synchCount, this`threads, this`log
      modifies data`regions, data`curSynchId, data`curInstrCount, data`curBbv, data`curLruHist, data`saved, data`open
      ensures if !data.isMaster then SavedAs(data, "thread_exit") else NothingSaved(data)
      ensures data.Valid() && Pair(data) == OnExit(old(SharedState()), old(ControlOf(data)))
      ensures threads == old(threads) + [data]
      ensures Owns(t, data) && log == old(log) + [ThreadExit(t)]
    {
      hide ThreadData.Valid, Separate, After, Controls, BarrierPointClient.Consistent;
      Entering(data, t);
      if !data.isMaster {
        SaveData(data, "thread_exit");
      }
      threads := threads + [data];
      log := log + [ThreadExit(t)];
      Performed(t, ThreadExit(t), Pair(data));
    }

    /** Runs before every basic block: counts it and feeds the buffered addresses, or drops them
        outside the region of interest. */
    method CleanCall(data: ThreadData, instCount: nat, address: nat, ghost t: Tid)
      requires Owns(t, data)
      modifies data`curBbv, data`curInstrCount, data`open, data`curLruHist, data`buffer
      modifies data.reuseDist, data.reuseDist.refList, data.reuseDist.refList.repr
      ensures data.Valid() && data.buffer == [] && Pair(data) == old(Pair(data))
      ensures data.open.blocks == old(data.open.blocks) + if inRoi then [Block(address, instCount)] else []
      ensures data.reuseDist.trace == old(data.reuseDist.trace) +
              if (if traceMemBeforeRoi then !roiHasEnded else inRoi) then LineTags(old(data.buffer), data.lineMask)
              else []
      ensures Owns(t, data)
    {
      hide ThreadData.Valid, Separate, After, Controls, BarrierPointClient.Consistent;
      Entering(data, t);
      Apart(t);
      if inRoi {
        data.AddBb(address, instCount);
      }
      if if traceMemBeforeRoi then !roiHasEnded else inRoi {
        data.AddAddress();
      } else {
        data.CleanBuffer();
      }
      MovedOn(t);
    }
  }

  /** After any run of callbacks the master, if there is one, has saved exactly the regions below
      the shared count. */
  lemma MasterOnHeap(client: BarrierPointClient, data: ThreadData)
    requires client.Consistent() && data in client.created && data.isMaster
    ensures data.Valid()
    ensures ControlOf(data).firstId == 0 && ControlOf(data).curSynchId == client.synchCount
    ensures forall x | x in client.created && x.isMaster :: x == data
  {
    hide ThreadData.Valid, After;
    MasterHasAllRegions(client.ignoreSingle, client.log);
    var s := Client(client.SharedState(), Controls(client.created));
    var t :| 0 <= t < |client.created| && client.created[t] == data;
    assert t in s.threads && s.threads[t].isMaster;
    forall x | x in client.created && x.isMaster
      ensures x == data
    {
      var u :| 0 <= u < |client.created| && client.created[u] == x;
      assert u in s.threads && s.threads[u].isMaster;
    }
  }
}
