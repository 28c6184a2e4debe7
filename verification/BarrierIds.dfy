/**
 The list of synchronization points of a run (dynamorio_client/barrierpoint.cpp, save_bp_id),
 written from the master's regions.
 */
module BarrierIds {
  import opened Common
  import opened ThreadDatas
  import opened ClientCallbacks

  datatype BpRow = BpRow(id: nat, iteration: nat, routine: string)

  /** All regions 0 .. n-1 are there. */
  ghost predicate Complete(regions: map<nat, Region>, n: nat) {
    forall i :: 0 <= i < n ==> i in regions
  }

  /** The regions below n that carry the routine's name. */
  ghost function Named(regions: map<nat, Region>, n: nat, routine: string): set<nat>
    requires Complete(regions, n)
  {
    set j: nat | j < n && regions[j].synchName == routine
  }

  /** The row stands for the region before its synchronization point: it names the routine that cut
      the region off, and how many earlier regions that routine has cut off. */
  ghost predicate StandsFor(regions: map<nat, Region>, n: nat, row: BpRow)
    requires Complete(regions, n)
  {
    && 1 <= row.id <= n
    && row.routine == regions[row.id - 1].synchName && row.routine != "thread_exit"
    && row.iteration == |Named(regions, row.id - 1, row.routine)|
  }

  /** The rows of the regions below n: first the start of the region of interest, then one row for
      every region not cut off by a thread's exit, by increasing number. */
  ghost predicate AreRows(regions: map<nat, Region>, n: nat, rows: seq<BpRow>)
    requires Complete(regions, n)
  {
    && rows != [] && rows[0] == BpRow(0, 0, "ROI_Start")
    && (forall k :: 1 <= k < |rows| ==> StandsFor(regions, n, rows[k]))
    && (forall j, k :: 0 <= j < k < |rows| ==> rows[j].id < rows[k].id)
    && (forall i :: 0 <= i < n && regions[i].synchName != "thread_exit" ==> HasRow(rows, i + 1))
  }

  ghost predicate HasRow(rows: seq<BpRow>, id: nat) {
    exists k :: 0 <= k < |rows| && rows[k].id == id
  }

  /** synch_times: how often each routine has been seen, less one. */
  ghost predicate Tallies(regions: map<nat, Region>, n: nat, times: map<string, nat>)
    requires Complete(regions, n)
  {
    forall r :: |Named(regions, n, r)| == if r in times then times[r] + 1 else 0
  }

  lemma NamedStep(regions: map<nat, Region>, n: nat, routine: string)
    requires Complete(regions, n + 1)
    ensures Complete(regions, n)
    ensures |Named(regions, n + 1, routine)| ==
            |Named(regions, n, routine)| + if regions[n].synchName == routine then 1 else 0
  {
    if regions[n].synchName == routine {
      assert Named(regions, n + 1, routine) == Named(regions, n, routine) + {n};
    } else {
      assert Named(regions, n + 1, routine) == Named(regions, n, routine);
    }
  }

  lemma TalliesStep(regions: map<nat, Region>, n: nat, times: map<string, nat>, more: map<string, nat>)
    requires Complete(regions, n + 1) && Complete(regions, n) && Tallies(regions, n, times)
    requires var name := regions[n].synchName; more == times[name := if name in times then times[name] + 1 else 0]
    ensures Tallies(regions, n + 1, more)
    ensures more[regions[n].synchName] == |Named(regions, n, regions[n].synchName)|
  {
    hide Named, Complete;
    forall r
      ensures |Named(regions, n + 1, r)| == if r in more then more[r] + 1 else 0
    {
      NamedStep(regions, n, r);
    }
  }

  lemma StillStands(regions: map<nat, Region>, n: nat, row: BpRow)
    requires Complete(regions, n + 1) && Complete(regions, n) && StandsFor(regions, n, row)
    ensures StandsFor(regions, n + 1, row)
  {
    hide Named, Complete;
  }

  lemma SkipRow(regions: map<nat, Region>, n: nat, rows: seq<BpRow>)
    requires Complete(regions, n + 1) && Complete(regions, n) && AreRows(regions, n, rows)
    requires regions[n].synchName == "thread_exit"
    ensures AreRows(regions, n + 1, rows)
  {
    hide Named, Complete, StandsFor, HasRow;
    forall k | 1 <= k < |rows|
      ensures StandsFor(regions, n + 1, rows[k])
    {
      StillStands(regions, n, rows[k]);
    }
  }

  lemma RowIds(regions: map<nat, Region>, n: nat, rows: seq<BpRow>)
    requires Complete(regions, n) && AreRows(regions, n, rows)
    ensures forall k :: 0 <= k < |rows| ==> rows[k].id <= n
  {
  }

  lemma KeepsRow(rows: seq<BpRow>, row: BpRow, id: nat)
    requires HasRow(rows, id) || row.id == id
    ensures HasRow(rows + [row], id)
  {
    if HasRow(rows, id) {
      var k :| 0 <= k < |rows| && rows[k].id == id;
      assert (rows + [row])[k].id == id;
    } else {
      assert (rows + [row])[|rows|].id == id;
    }
  }

  lemma AddRow(regions: map<nat, Region>, n: nat, rows: seq<BpRow>, row: BpRow)
    requires Complete(regions, n + 1) && Complete(regions, n) && AreRows(regions, n, rows)
    requires row.id == n + 1 && StandsFor(regions, n + 1, row)
    ensures AreRows(regions, n + 1, rows + [row])
  {
    hide Named, StandsFor, HasRow;
    RowIds(regions, n, rows);
    forall k | 1 <= k < |rows|
      ensures StandsFor(regions, n + 1, rows[k])
    {
      StillStands(regions, n, rows[k]);
    }
    forall i | 0 <= i < n + 1 && regions[i].synchName != "thread_exit"
      ensures HasRow(rows + [row], i + 1)
    {
      KeepsRow(rows, row, i + 1);
    }
  }

  method WriteRows(regions: map<nat, Region>, synchCount: nat) returns (rows: seq<BpRow>)
    requires Complete(regions, synchCount)
    ensures AreRows(regions, synchCount, rows)
  {
    hide Named, AreRows, Tallies;
    rows := [BpRow(0, 0, "ROI_Start")];
    var times: map<string, nat> := map[];
    NoRows(regions);
    for id := 0 to synchCount
      invariant Tallies(regions, id, times) && AreRows(regions, id, rows)
    {
      var fName := regions[id].synchName;
      ghost var before := times;
      if fName !in times {
        times := times[fName := 0];
      } else {
        times := times[fName := times[fName] + 1];
      }
      TalliesStep(regions, id, before, times);
      if fName != "thread_exit" {
        AddRow(regions, id, rows, BpRow(id + 1, times[fName], fName));
        rows := rows + [BpRow(id + 1, times[fName], fName)];
      } else {
        SkipRow(regions, id, rows);
      }
    }
  }

  lemma NoRows(regions: map<nat, Region>)
    ensures Tallies(regions, 0, map[]) && AreRows(regions, 0, [BpRow(0, 0, "ROI_Start")])
  {
    assert forall r :: Named(regions, 0, r) == {};
  }

  /** After any run of callbacks the master has saved exactly the regions below the shared count. */
  lemma MasterComplete(client: BarrierPointClient, master: ThreadData)
    requires client.Consistent() && master in client.created && master.isMaster
    ensures forall i :: i in master.regions <==> 0 <= i < client.synchCount
    ensures Complete(master.regions, client.synchCount)
    ensures forall x | x in client.created && x.isMaster :: x == master
  {
    hide BarrierPointClient.Consistent;
    MasterOnHeap(client, master);
  }

  /** The rows of the one master in the list, if there is one. */
  method WriteMaster(threads: seq<ThreadData>, synchCount: nat) returns (rows: seq<BpRow>)
    requires forall i :: 0 <= i < |threads| && threads[i].isMaster ==> Complete(threads[i].regions, synchCount)
    requires forall i, j :: 0 <= i < j < |threads| ==> !(threads[i].isMaster && threads[j].isMaster)
    ensures forall i :: 0 <= i < |threads| && threads[i].isMaster ==> AreRows(threads[i].regions, synchCount, rows)
    ensures (forall i :: 0 <= i < |threads| ==> !threads[i].isMaster) ==> rows == []
  {
    hide AreRows, Complete;
    rows := [];
    for i := 0 to |threads|
      invariant forall j :: 0 <= j < i && threads[j].isMaster ==> AreRows(threads[j].regions, synchCount, rows)
      invariant (forall j :: 0 <= j < i ==> !threads[j].isMaster) ==> rows == []
    {
      if threads[i].isMaster {
        var masterRows := WriteRows(threads[i].regions, synchCount);
        assert [] + masterRows == masterRows;
        rows := rows + masterRows;
      }
    }
  }

  /** The rows of the master once it has exited; the source's assertion that it has every region
      below the shared count holds. */
  method SaveBpId(client: BarrierPointClient) returns (rows: seq<BpRow>)
    requires client.Consistent()
    ensures forall m | m in client.threads && m.isMaster ::
              Complete(m.regions, client.synchCount) && AreRows(m.regions, client.synchCount, rows)
    ensures (forall m | m in client.threads :: !m.isMaster) ==> rows == []
  {
    ListedMaster(client);
    hide BarrierPointClient.Consistent, AreRows, Complete;
    rows := WriteMaster(client.threads, client.synchCount);
  }

  lemma ListedMaster(client: BarrierPointClient)
    requires client.Consistent()
    ensures forall m | m in client.threads && m.isMaster :: Complete(m.regions, client.synchCount)
    ensures forall i, j :: 0 <= i < j < |client.threads| ==> !(client.threads[i].isMaster && client.threads[j].isMaster)
  {
    assert NoDuplicates(client.threads) && forall x :: x in client.threads ==> x in client.created;
    forall m | m in client.threads && m.isMaster
      ensures Complete(m.regions, client.synchCount)
      ensures forall x | x in client.created && x.isMaster :: x == m
    {
      MasterComplete(client, m);
    }
  }
}
