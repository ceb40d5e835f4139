/** What the cluster holds after a run: the handlers' effects on the union of the node maps, one after the other. */
module ContentRuns {
  import opened Records
  import opened Nodes
  import opened NodeLists
  import opened Balance
  import opened Cluster
  import opened ClusterSteps
  import opened Batches
  import opened FailedBatches
  import opened Deletes
  import opened Drain
  import opened DrainCounts
  import opened ClusterRuns

  /** What a call does to the map of all records, seen by a client: balancing and refreshing are invisible, a node
      that joins brings its records, and one that leaves takes only what its drain left behind. */
  ghost function Effect(c: State, op: Op, m: Store): Store {
    match op
    case Create(rec, o) => if CreateRecord(c, rec, o).1 then m[c.nextId := rec.(id := c.nextId)] else m
    case CreateWithId(rec, answers, o) => if CreateRecordWithId(c, rec, answers, o).1 then m[rec.id := rec] else m
    case CreateBatch(recs, outs, fallback, pf, faults) =>
      if CreateRecordsWithId(c, recs, outs, fallback, pf, faults).1 then Insert(m, recs) else m
    case Update(rec, singles) => if HoldersAct(c.nodes, rec.id, singles) then UpdatedMap(m, rec) else m
    case Delete(id, singles) => if HoldersAct(c.nodes, id, singles) then m - {id} else m
    case DeleteMany(ids, _, _) => m - IdSet(ids)
    case Join(store, _, _) => m + store
    case Leave(id, faults) =>
      var r := DeleteNode(c, id, faults);
      if r.Removed? then m - r.leaving.store.Keys else m
    case Refresh(_) => m
  }

  ghost predicate AllDeleted(pf: PurgeFaults) {
    forall i :: pf.deleted(i)
  }

  /** The batch succeeds, or every node left with some of it is cleaned. */
  ghost predicate BatchSettles(c: State, recs: seq<Record>, outs: Outcomes, fallback: CreateOutcome, pf: PurgeFaults,
                               faults: Faults)
  {
    || c.nodes == []
    || CreateRecordsWithId(c, recs, outs, fallback, pf, faults).1
    || CleanedUp(|recs|, |c.nodes|, outs, fallback, pf)
  }

  /** Admissible, no single create was applied and reported as failed, a failed batch is cleaned up, and bulk deletes
      reach every node. */
  ghost predicate Settled(c: State, op: Op) {
    && Admissible(c, op)
    && match op {
         case CreateWithId(_, _, o) => o != StoredButFailed
         case CreateBatch(recs, outs, fallback, pf, faults) => BatchSettles(c, recs, outs, fallback, pf, faults)
         case DeleteMany(_, pf, _) => AllDeleted(pf)
         case _ => true
       }
  }

  // ----- creates -----

  lemma {:induction false} CreateHas(c: State, rec: Record, o: CreateOutcome)
    requires Inv(c) && o != StoredButFailed
    ensures Contents(CreateRecord(c, rec, o).0.nodes) == Effect(c, Create(rec, o), Contents(c.nodes))
  {
    hide Contents, Inv;
    if c.nodes != [] {
      if o == Stored {
        CreateRecordNeverCollides(c, rec);
      } else {
        SameNode(c.nodes, LeastLoaded(c.nodes));
      }
    }
  }

  lemma {:induction false} CreateWithIdHas(c: State, r: Record, answers: nat -> bool, o: CreateOutcome)
    requires Inv(c) && SafeWithId(c, r, answers, o) && o != StoredButFailed
    ensures var (c', ok) := CreateRecordWithId(c, r, answers, o);
            Contents(c'.nodes) == if ok then Contents(c.nodes)[r.id := r] else Contents(c.nodes)
  {
    hide Contents;
    if c.nodes != [] && !Reported(c.nodes, r.id, answers) {
      var i := LeastLoaded(c.nodes);
      var (c', ok) := CreateRecordWithId(c, r, answers, o);
      if ok {
        assert NodeBelow(c.nodes[i], c.nextId);
        StoreOne(c, i, r, c'.nodes[i], c'.nextId);
      } else {
        SameNode(c.nodes, i);
      }
    }
  }

  lemma {:induction false} BatchHas(c: State, recs: seq<Record>, outs: Outcomes, fallback: CreateOutcome,
                                    pf: PurgeFaults, faults: Faults)
    requires Inv(c) && Fresh(c.nodes, recs) && BatchSettles(c, recs, outs, fallback, pf, faults)
    ensures var (c', ok) := CreateRecordsWithId(c, recs, outs, fallback, pf, faults);
            Contents(c'.nodes) == if ok then Insert(Contents(c.nodes), recs) else Contents(c.nodes)
  {
    hide Contents, Insert, CreateRecordsWithId, AllIds, CleanedUp;
    DisjointAgree(c.nodes);
    SplitAddsBatch(c, recs, outs, fallback, pf, faults);
    if c.nodes != [] {
      FailedBatchUnionIff(c, recs, outs, fallback, pf, faults);
    } else {
      NoNodesNoBatch(c, recs, outs, fallback, pf, faults);
    }
  }

  lemma NoNodesNoBatch(c: State, recs: seq<Record>, outs: Outcomes, fallback: CreateOutcome,
                       pf: PurgeFaults, faults: Faults)
    requires c.nodes == []
    ensures CreateRecordsWithId(c, recs, outs, fallback, pf, faults) == (c, false)
  {
  }

  // ----- nodes -----

  lemma {:induction false} LastHolds(ns: seq<Node>, n: Node, id: nat, r: Record)
    ensures Holds(ns + [n], id, r) <==> Holds(ns, id, r) || Has(n, id, r)
  {
    var all := ns + [n];
    if Holds(ns, id, r) {
      var i :| 0 <= i < |ns| && Has(ns[i], id, r);
      assert Has(all[i], id, r);
    }
    if Has(n, id, r) {
      assert Has(all[|ns|], id, r);
    }
    if Holds(all, id, r) {
      var i :| 0 <= i < |all| && Has(all[i], id, r);
      assert i < |ns| ==> Has(ns[i], id, r);
    }
  }

  /** Disjoint nodes without the last: the union and the last node's map, and nothing of the one is in the other. */
  lemma {:induction false} UnionWithLast(ns: seq<Node>, n: Node)
    requires PairwiseDisjoint(ns + [n])
    ensures Contents(ns + [n]) == Contents(ns) + n.store
    ensures Contents(ns) == Contents(ns + [n]) - n.store.Keys
  {
    hide Contents, PairwiseDisjoint, Holds, AllAgree;
    var all := ns + [n];
    InitDisjoint(ns, n);
    DisjointAgree(ns);
    DisjointAgree(all);
    var m, m' := Contents(ns), Contents(all);
    forall id: nat, r
      ensures Binds(m', id, r) <==> Binds(m, id, r) || Binds(n.store, id, r)
      ensures Binds(m, id, r) ==> id !in n.store
    {
      LastHolds(ns, n, id, r);
      ContentsHolds(ns, id, r);
      ContentsHolds(all, id, r);
      NotOnLast(ns, n, id, r);
    }
    MapWithLast(m, n.store, m');
  }

  lemma InitDisjoint(ns: seq<Node>, n: Node)
    requires PairwiseDisjoint(ns + [n])
    ensures PairwiseDisjoint(ns)
  {
    var all := ns + [n];
    assert forall i :: 0 <= i < |ns| ==> all[i] == ns[i];
  }

  lemma NotOnLast(ns: seq<Node>, n: Node, id: nat, r: Record)
    requires PairwiseDisjoint(ns + [n])
    ensures Holds(ns, id, r) ==> id !in n.store
  {
    if Holds(ns, id, r) {
      var i :| 0 <= i < |ns| && Has(ns[i], id, r);
      OthersDisjoint(ns + [n], i, |ns|);
      assert id in (ns + [n])[i].store.Keys;
    }
  }

  ghost predicate Binds(m: Store, id: nat, r: Record) {
    id in m && m[id] == r
  }

  lemma MapWithLast(m: Store, s: Store, m': Store)
    requires forall id, r :: Binds(m', id, r) <==> Binds(m, id, r) || Binds(s, id, r)
    requires forall id, r :: Binds(m, id, r) ==> id !in s
    ensures m' == m + s && m == m' - s.Keys
  {
    forall id | id in m
      ensures id in m' && m'[id] == m[id] && id !in s
    {
      assert Binds(m, id, m[id]) && Binds(m', id, m[id]);
    }
    forall id | id in s
      ensures id in m' && m'[id] == s[id]
    {
      assert Binds(s, id, s[id]) && Binds(m', id, s[id]);
    }
    forall id | id in m'
      ensures id in m || id in s
    {
      assert Binds(m', id, m'[id]);
    }
  }

  lemma {:induction false} JoinHas(c: State, store: Store, storeNext: nat, faults: Faults)
    requires Inv(c) && MayJoin(c, store, storeNext) && CleanFaults(faults)
    ensures Contents(AddNode(c, store, storeNext, faults).nodes) == Contents(c.nodes) + store
  {
    hide Contents, BalanceNodes;
    JoiningInv(c, store, storeNext);
    BalancedKeepsAll(Joining(c, store, storeNext), faults);
    UnionWithLast(c.nodes, Node(c.nextNodeId, store, storeNext, |store|, storeNext));
  }

  lemma {:induction false} LeaveHas(c: State, id: nat, faults: Faults)
    requires Inv(c) && CleanFaults(faults)
    ensures var r := DeleteNode(c, id, faults);
            r.Removed? ==> Contents(r.c.nodes) == Contents(c.nodes) - r.leaving.store.Keys
  {
    hide Contents, Drained, SwapRemove, AllIds;
    if c.nodes != [] {
      var i := FindNode(c.nodes, id, 0);
      if i < |c.nodes| {
        DrainedKeeps(c, i, faults);
        var ns := Drained(SwapRemove(c.nodes, i), c.nodes[i], faults);
        assert ns[..|ns| - 1] + [ns[|ns| - 1]] == ns;
        UnionWithLast(ns[..|ns| - 1], ns[|ns| - 1]);
      }
    }
  }

  /** Whatever transfers fail, as long as failed ones are not applied: the survivors hold everything there was exactly
      when the leaving node had nothing, or one record or more for each survivor and every transfer was carried
      out, or fewer and at least as many transfers were. */
  lemma {:induction false} LeaveKeepsAllIff(c: State, id: nat, faults: Faults)
    requires Inv(c) && CleanFaults(faults)
    requires FindNode(c.nodes, id, 0) < |c.nodes| && Accurate(c.nodes[FindNode(c.nodes, id, 0)])
    ensures var r, leaver := DeleteNode(c, id, faults), c.nodes[FindNode(c.nodes, id, 0)];
      && r.Removed?
      && (Contents(r.c.nodes) == Contents(c.nodes) <==> DrainComplete(|leaver.store|, |c.nodes| - 1, faults))
  {
    hide Contents, Drained, SwapRemove, AllIds, DrainComplete;
    var i := FindNode(c.nodes, id, 0);
    var r, ns := DeleteNode(c, id, faults), Drained(SwapRemove(c.nodes, i), c.nodes[i], faults);
    RearrangedInv(c, i);
    LeaverEmptyIff(SwapRemove(c.nodes, i), c.nodes[i], faults);
    LeaveHas(c, id, faults);
    DrainedKeeps(c, i, faults);
    LeftBehind(c.nodes, ns, r.leaving.store);
    WithoutNothing(Contents(c.nodes), r.leaving.store.Keys);
  }

  /** What is on the last node is in the union. */
  lemma LeftBehind(before: seq<Node>, ns: seq<Node>, store: Store)
    requires AllIds(ns) == AllIds(before) && ns != [] && store == ns[|ns| - 1].store
    ensures store.Keys <= Contents(before).Keys
  {
    forall id | id in store.Keys
      ensures id in AllIds(ns)
    {
      assert id in ns[|ns| - 1].store.Keys;
    }
  }

  lemma WithoutNothing(m: Store, ids: set<nat>)
    requires ids <= m.Keys
    ensures m - ids == m <==> ids == {}
  {
    if id :| id in ids {
      assert id in m && id !in m - ids;
    } else {
      assert m - ids == m;
    }
  }

  lemma {:induction false} RefreshHas(c: State, answered: nat -> bool)
    requires Inv(c)
    ensures Contents(UpdateNodes(c, answered).nodes) == Contents(c.nodes)
  {
    hide Contents, AllAgree;
    DisjointAgree(c.nodes);
    var ns := UpdateNodes(c, answered).nodes;
    forall i | 0 <= i < |ns|
      ensures ns[i].store == c.nodes[i].store
    {
      assert ns[i] == Refreshed(c.nodes[i], answered(i));
    }
    SameStoresSameContents(ns, c.nodes);
  }

  lemma {:induction false} BulkDeleteHas(c: State, ids: seq<nat>, pf: PurgeFaults, faults: Faults)
    requires Inv(c) && AllDeleted(pf)
    ensures Contents(DeleteRecords(c, ids, pf, faults).0.nodes) == Contents(c.nodes) - IdSet(ids)
  {
    hide Contents, DeleteRecords;
    DisjointAgree(c.nodes);
    DeleteRecordsRemoves(c, ids, pf, faults);
  }

  // ----- runs -----

  lemma {:induction false} ApplyHas(c: State, op: Op)
    requires Inv(c) && Settled(c, op)
    ensures Contents(Apply(c, op).nodes) == Effect(c, op, Contents(c.nodes))
  {
    hide Contents, CreateRecord, CreateRecordWithId, CreateRecordsWithId, UpdateRecord, DeleteRecord, DeleteRecords,
         AddNode, DeleteNode, UpdateNodes, SafeWithId, Fresh, MayJoin, Insert, UpdatedMap, HoldersAct, PairwiseDisjoint;
    match op
    case Create(rec, o) => CreateHas(c, rec, o);
    case CreateWithId(rec, answers, o) => CreateWithIdHas(c, rec, answers, o);
    case CreateBatch(recs, outs, fallback, pf, faults) => BatchHas(c, recs, outs, fallback, pf, faults);
    case Update(rec, singles) => UpdateRecordUpdates(c, rec, singles);
    case Delete(id, singles) =>
      DisjointAgree(c.nodes);
      DeleteRecordRemoves(c, id, singles);
    case DeleteMany(ids, pf, faults) => BulkDeleteHas(c, ids, pf, faults);
    case Join(store, storeNext, faults) => JoinHas(c, store, storeNext, faults);
    case Leave(id, faults) => LeaveHas(c, id, faults);
    case Refresh(answered) => RefreshHas(c, answered);
  }

  ghost function Effects(c: State, ops: seq<Op>, m: Store): Store {
    if ops == [] then m
    else Effect(RunOps(c, ops[..|ops| - 1]), ops[|ops| - 1], Effects(c, ops[..|ops| - 1], m))
  }

  ghost predicate SettledRun(c: State, ops: seq<Op>) {
    ops == [] || (SettledRun(c, ops[..|ops| - 1]) && Settled(RunOps(c, ops[..|ops| - 1]), ops[|ops| - 1]))
  }

  /** After every settled run, with any failing creates, transfers and single updates or deletes, with nodes joining,
      leaving and being balanced, the cluster holds exactly what the calls' effects make of what it held. */
  lemma {:induction false} ContentsOverRuns(c: State, ops: seq<Op>)
    requires Inv(c) && SettledRun(c, ops)
    ensures Inv(RunOps(c, ops))
    ensures Contents(RunOps(c, ops).nodes) == Effects(c, ops, Contents(c.nodes))
  {
    hide Inv, Contents, Effect, Apply, Admissible;
    if ops != [] {
      var init, op := ops[..|ops| - 1], ops[|ops| - 1];
      ContentsOverRuns(c, init);
      ApplyHas(RunOps(c, init), op);
      ApplyKeepsInv(RunOps(c, init), op);
    }
  }
}
