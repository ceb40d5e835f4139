/** What each handler leaves in every field of the master's state. */
module HandlerEffects {
  import opened Records
  import opened Nodes
  import opened NodeLists
  import opened Balance
  import opened Cluster
  import opened ClusterSteps
  import opened Batches
  import opened Deletes
  import opened Drain
  import opened ClusterRuns
  import opened AccurateRuns

  // ----- creating one record -----

  /** Node i is the first with the fewest cached records. */
  ghost predicate IsFirstFewest(ns: seq<Node>, i: nat) {
    && i < |ns|
    && (forall j :: 0 <= j < |ns| ==> ns[i].records <= ns[j].records)
    && (forall j :: 0 <= j < i ==> ns[i].records < ns[j].records)
  }

  lemma FirstFewestIsUnique(ns: seq<Node>, i: nat)
    requires IsFirstFewest(ns, i)
    ensures LeastLoaded(ns) == i
  {
  }

  ghost function WithRecord(n: Node, r: Record): Node {
    n.(store := n.store[r.id := r])
  }

  /** A create goes to the first node with the fewest records, under the next id, for every outcome: applied and
      reported it raises the node's count and both next ids by one record; applied and not reported only the node's
      store changes; otherwise nothing does. */
  lemma {:induction false} CreateRecordPlaces(c: State, rec: Record, o: CreateOutcome, i: nat)
    requires IsFirstFewest(c.nodes, i)
    ensures var r, n := rec.(id := c.nextId), c.nodes[i];
            var res := CreateRecord(c, rec, o);
      && (r.id !in n.store && o == Stored ==>
            res == (State(c.nodes[i := WithRecord(n, r).(records := n.records + 1, nextRecordId := c.nextId + 1)],
                          c.nextId + 1, c.nextNodeId), true))
      && (r.id !in n.store && o == StoredButFailed ==> res == (c.(nodes := c.nodes[i := WithRecord(n, r)]), false))
      && (r.id in n.store || o == NotStored || o == RolledBack ==> res == (c, false))
  {
    FirstFewestIsUnique(c.nodes, i);
    SameNode(c.nodes, i);
  }

  /** The same for a record with its own id, unless some node reports the id. The next ids are raised past it, and never
      lowered. */
  lemma {:induction false} CreateRecordWithIdPlaces(c: State, r: Record, answers: nat -> bool, o: CreateOutcome, i: nat)
    requires IsFirstFewest(c.nodes, i)
    ensures var n, res := c.nodes[i], CreateRecordWithId(c, r, answers, o);
            var reported := exists j :: 0 <= j < |c.nodes| && answers(j) && r.id in c.nodes[j].store;
            var next := if n.nextRecordId <= r.id then r.id + 1 else n.nextRecordId;
      && (!reported && r.id !in n.store && o == Stored ==>
            res == (State(c.nodes[i := WithRecord(n, r).(records := n.records + 1, nextRecordId := next)],
                          if c.nextId < next then next else c.nextId, c.nextNodeId), true))
      && (!reported && r.id !in n.store && o == StoredButFailed ==>
            res == (c.(nodes := c.nodes[i := WithRecord(n, r)]), false))
      && (reported || r.id in n.store || o == NotStored || o == RolledBack ==> res == (c, false))
  {
    FirstFewestIsUnique(c.nodes, i);
    SameNode(c.nodes, i);
  }

  lemma CreateOnNobody(c: State, rec: Record, answers: nat -> bool, o: CreateOutcome)
    requires c.nodes == []
    ensures CreateRecord(c, rec, o) == (c, false) && CreateRecordWithId(c, rec, answers, o) == (c, false)
  {
  }

  /** An accepted slice: the node counts it, its next id is raised past the highest id of the slice, and if that raised
      it the master's next id is raised past it too. */
  lemma {:induction false} CreatorCounts(c: State, i: nat, rs: seq<Record>, top: Record)
    requires i < |c.nodes| && top in rs && forall r :: r in rs ==> r.id <= top.id
    ensures var n, c' := c.nodes[i], Creator(c, i, rs, Stored).0;
            var low := n.nextRecordId <= top.id;
      && c'.nodes[i].records == n.records + |rs|
      && c'.nodes[i].nextRecordId == (if low then top.id + 1 else n.nextRecordId)
      && c'.nextId == (if low && c.nextId <= top.id + 1 then top.id + 2 else c.nextId)
      && c'.nextNodeId == c.nextNodeId && c'.nodes[i].id == n.id && c'.nodes[i].storeNext == n.storeNext
  {
    MaxIdIsHighest(rs, top);
  }

  // ----- updating -----

  /** An update that reached its holder: that record of the union is overlaid by the update, the others stay. */
  lemma {:induction false} UpdateRecordOverlays(c: State, rec: Record, outs: nat -> SingleOutcome)
    requires PairwiseDisjoint(c.nodes) && HoldersAct(c.nodes, rec.id, outs) && rec.id in Contents(c.nodes)
    ensures var m, m' := Contents(c.nodes), Contents(UpdateRecord(c, rec, outs).nodes);
      && m'.Keys == m.Keys && Overlaid(m[rec.id], rec, m'[rec.id])
      && forall id :: id in m && id != rec.id ==> m'[id] == m[id]
  {
    hide Contents;
    UpdateRecordUpdates(c, rec, outs);
  }

  // ----- refreshing and deleting -----

  /** A node that answers is counted right afterwards, whatever was cached; the others keep what was cached. */
  lemma UpdateNodesRefreshes(c: State, answered: nat -> bool, i: nat)
    requires i < |c.nodes|
    ensures var c' := UpdateNodes(c, answered);
      && |c'.nodes| == |c.nodes| && c'.nextId == c.nextId && c'.nextNodeId == c.nextNodeId
      && c'.nodes[i].store == c.nodes[i].store && c'.nodes[i].id == c.nodes[i].id
      && (answered(i) ==> Accurate(c'.nodes[i]) && c'.nodes[i].nextRecordId == c.nodes[i].storeNext)
      && (!answered(i) ==> c'.nodes[i] == c.nodes[i])
  {
    assert UpdateNodes(c, answered).nodes[i] == Refreshed(c.nodes[i], answered(i));
  }

  /** A bulk delete raises the next id to the least one above what it was and above every next id then cached. */
  lemma {:induction false} DeleteRecordsRaises(c: State, ids: seq<nat>, pf: PurgeFaults, faults: Faults)
    ensures var c', ns := DeleteRecords(c, ids, pf, faults).0, PurgeAll(c.nodes, IdSet(ids), pf);
      && c.nextId <= c'.nextId && c'.nextNodeId == c.nextNodeId
      && (forall i :: 0 <= i < |ns| ==> ns[i].nextRecordId < c'.nextId)
      && (c'.nextId == c.nextId || exists i :: 0 <= i < |ns| && c'.nextId == ns[i].nextRecordId + 1)
  {
    hide BalanceNodes, PurgeAll;
  }

  /** The verdict of a bulk delete: the drop of the cached total, in 64-bit arithmetic, is the number of ids. */
  lemma {:induction false} DeleteRecordsVerdict(c: State, ids: seq<nat>, pf: PurgeFaults, faults: Faults)
    requires Total(c.nodes) < TWO64 && |ids| < TWO64
    requires Total(DeleteRecords(c, ids, pf, faults).0.nodes) < TWO64
    ensures var (c', ok) := DeleteRecords(c, ids, pf, faults);
            ok <==> (Total(c'.nodes) + |ids|) % TWO64 == Total(c.nodes)
  {
    hide BalanceNodes, PurgeAll, Total;
    var before, after := Total(c.nodes), Total(DeleteRecords(c, ids, pf, faults).0.nodes);
    Sub64Is(before, after);
    SubUnique(before, after, |ids|, Sub64(before, after));
  }

  lemma SubUnique(a: nat, b: nat, x: nat, y: nat)
    requires a < TWO64 && b < TWO64 && x < TWO64 && y < TWO64 && (y + b) % TWO64 == a
    ensures x == y <==> (b + x) % TWO64 == a
  {
    assert b + x < TWO64 ==> (b + x) % TWO64 == b + x;
    assert b + x >= TWO64 ==> (b + x) % TWO64 == b + x - TWO64;
    assert y + b < TWO64 ==> (y + b) % TWO64 == y + b;
    assert y + b >= TWO64 ==> (y + b) % TWO64 == y + b - TWO64;
  }

  // ----- nodes -----

  /** Removing a node panics exactly when there are no nodes, and finds nothing exactly when no node has the id.
      Otherwise that node leaves, the last one takes its place, and the master's ids stay. */
  lemma {:induction false} DeleteNodeVerdict(c: State, id: nat, faults: Faults)
    requires Inv(c)
    ensures var r := DeleteNode(c, id, faults);
      && (r.Panicked? <==> c.nodes == [])
      && (r.NoSuchNode? <==> c.nodes != [] && forall i :: 0 <= i < |c.nodes| ==> c.nodes[i].id != id)
      && (r.Removed? ==> r.c.nextId == c.nextId && r.c.nextNodeId == c.nextNodeId && r.leaving.id == id)
      && (r.Removed? ==>
            && |r.c.nodes| == |c.nodes| - 1
            && forall j :: 0 <= j < |r.c.nodes| ==>
                 r.c.nodes[j].id == if c.nodes[j].id == id then c.nodes[|c.nodes| - 1].id else c.nodes[j].id)
  {
    hide Drained, AllIds, Contents, FindNode;
    if c.nodes != [] {
      var i := FindNode(c.nodes, id, 0);
      if i < |c.nodes| {
        DrainedKeeps(c, i, faults);
        var ns := Drained(SwapRemove(c.nodes, i), c.nodes[i], faults);
        forall j | 0 <= j < |c.nodes|
          ensures ns[j].id == (SwapRemove(c.nodes, i) + [c.nodes[i]])[j].id
          ensures c.nodes[j].id == id <==> j == i
        {
        }
      }
    }
  }

  /** A node joins at the end under the next node id; the master's next id is raised past the one it reports. If that
      leaves the load in balance the other nodes stay as they are, and the new one is cached as it reports itself. */
  lemma {:induction false} AddNodeNumbers(c: State, store: Store, storeNext: nat, faults: Faults)
    requires Inv(c) && MayJoin(c, store, storeNext)
    ensures var c' := AddNode(c, store, storeNext, faults);
      && |c'.nodes| == |c.nodes| + 1 && c'.nextNodeId == c.nextNodeId + 1
      && c'.nodes[|c.nodes|].id == c.nextNodeId
      && (forall i :: 0 <= i < |c.nodes| ==> c'.nodes[i].id == c.nodes[i].id)
      && c'.nextId == (if c.nextId <= storeNext then storeNext + 1 else c.nextId)
      && var n := Node(c.nextNodeId, store, storeNext, |store|, storeNext);
         InBalance(c.nodes + [n]) ==> c'.nodes == c.nodes + [n]
  {
    hide BalanceNodes, AllIds, InBalance;
    BalanceHysteresis(c.nodes + [Node(c.nextNodeId, store, storeNext, |store|, storeNext)], faults);
    var c1 := Joining(c, store, storeNext);
    JoiningInv(c, store, storeNext);
    BalanceStaysBelow(c1.nodes, faults, c1.nextId);
  }

  // ----- levelling -----

  ghost predicate AllTransfersOk(faults: Faults) {
    forall i :: AllOk(faults(i))
  }

  lemma {:induction false} BalancedIsLevel(c: State, faults: Faults)
    requires Inv(c) && AllAccurate(c.nodes) && AllTransfersOk(faults)
    ensures InBalance(Balanced(c, faults).nodes) && AllAccurate(Balanced(c, faults).nodes)
  {
    hide InBalance, BalanceNodes;
    BalanceLevels(c.nodes, faults);
  }

  /** After a successful batch the load is in balance, however the split failed before. */
  lemma {:induction false} BatchLevels(c: State, recs: seq<Record>, outs: Outcomes, fallback: CreateOutcome,
                                       pf: PurgeFaults, faults: Faults)
    requires Inv(c) && AllAccurate(c.nodes) && Fresh(c.nodes, recs) && CleanCreates(outs) && AllTransfersOk(faults)
    ensures var (c', ok) := CreateRecordsWithId(c, recs, outs, fallback, pf, faults);
            ok ==> InBalance(c'.nodes) && AllAccurate(c'.nodes)
  {
    hide Creator, Inv, Contents, AllIds, AllAccurate, Ids, BalanceNodes, InBalance;
    if c.nodes != [] {
      var p := Spread(c, recs, outs, |c.nodes|);
      SpreadAccepts(c, recs, outs, |c.nodes|);
      assert recs[p.start..] == recs[p.start..|recs|];
      if p.last.None? {
      } else if p.start == |recs| {
        BalancedIsLevel(p.c, faults);
      } else if fallback == Stored {
        SliceAccepted(c, recs, p, p.last.value, |recs|);
        BalancedIsLevel(Creator(p.c, p.last.value, recs[p.start..], fallback).0, faults);
      }
    }
  }

  /** So it is after a bulk delete, and with it after the cleanup of a failed batch. */
  lemma {:induction false} DeleteRecordsLevels(c: State, ids: seq<nat>, pf: PurgeFaults, faults: Faults)
    requires Inv(c) && AllAccurate(c.nodes) && AllTransfersOk(faults) && Refreshing(pf)
    ensures InBalance(DeleteRecords(c, ids, pf, faults).0.nodes)
  {
    hide InBalance, BalanceNodes;
    var ns := PurgeAll(c.nodes, IdSet(ids), pf);
    var c1 := c.(nodes := ns, nextId := RaiseAll(c.nextId, ns));
    PurgedInv(c, ids, pf);
    BalancedIsLevel(c1, faults);
  }

  /** And after a node has joined. */
  lemma {:induction false} AddNodeLevels(c: State, store: Store, storeNext: nat, faults: Faults)
    requires Inv(c) && AllAccurate(c.nodes) && MayJoin(c, store, storeNext) && AllTransfersOk(faults)
    ensures InBalance(AddNode(c, store, storeNext, faults).nodes)
  {
    hide InBalance, BalanceNodes;
    JoiningInv(c, store, storeNext);
    JoiningAccurate(c, store, storeNext);
    BalancedIsLevel(Joining(c, store, storeNext), faults);
  }
}
