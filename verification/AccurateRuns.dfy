/** Runs in which the master's cached counts stay equal to what the nodes hold. */
module AccurateRuns {
  import opened Records
  import opened Nodes
  import opened NodeLists
  import opened Balance
  import opened Cluster
  import opened ClusterSteps
  import opened Batches
  import opened Deletes
  import opened DrainCounts
  import opened ClusterRuns

  // ----- balance -----

  ghost predicate AllPositive(ms: seq<Move>) {
    forall i :: 0 <= i < |ms| ==> ms[i].n > 0
  }

  lemma {:induction false} FeasiblePositive(d: seq<int>, ms: seq<Move>)
    requires Feasible(d, ms)
    ensures AllPositive(ms)
    decreases |ms|
  {
    if ms != [] {
      FeasiblePositive(Shift(d, ms[0]), ms[1..]);
      assert forall i :: 0 < i < |ms| ==> ms[i] == ms[1..][i - 1];
    }
  }

  lemma {:induction false} RunStaysAccurate(ns: seq<Node>, floors: seq<nat>, ms: seq<Move>, faults: Faults, k: nat)
    requires |floors| == |ns| && AllInRange(ms, |ns|) && DonorsStayAbove(ns, floors, ms, faults, k)
    requires AllPositive(ms) && CleanFaults(faults)
    requires AllKeyed(ns) && PairwiseDisjoint(ns) && AllAccurate(ns)
    ensures AllAccurate(RunMoves(ns, ms, faults, k))
    decreases |ms|
  {
    hide Step;
    if ms != [] {
      StepStaysAccurate(ns, ms[0], faults(k));
      RunStaysAccurate(Step(ns, ms[0], faults(k)), floors, ms[1..], faults, k + 1);
    }
  }

  lemma {:induction false} BalancedStaysAccurate(c: State, faults: Faults)
    requires Inv(c) && AllAccurate(c.nodes) && CleanFaults(faults)
    ensures AllAccurate(Balanced(c, faults).nodes)
  {
    var ns := c.nodes;
    if Triggered(ns) {
      BalanceNeverUnderflows(ns, faults);
      PlanSettles(ns);
      FeasiblePositive(Deltas(ns), Plan(ns));
      RunStaysAccurate(ns, Targets(ns), Plan(ns), faults, 0);
    }
  }

  // ----- the other handlers -----

  /** Every node that applied the delete was asked for its status and answered. */
  ghost predicate Refreshing(pf: PurgeFaults) {
    forall i :: pf.deleted(i) ==> pf.informed(i)
  }

  /** Before the balance of a bulk delete. */
  lemma {:induction false} PurgedInv(c: State, ids: seq<nat>, pf: PurgeFaults)
    requires Inv(c) && AllAccurate(c.nodes) && Refreshing(pf)
    ensures var ns := PurgeAll(c.nodes, IdSet(ids), pf);
            Inv(c.(nodes := ns, nextId := RaiseAll(c.nextId, ns))) && AllAccurate(ns)
  {
    var ns := PurgeAll(c.nodes, IdSet(ids), pf);
    var c1 := c.(nodes := ns, nextId := RaiseAll(c.nextId, ns));
    forall i | 0 <= i < |ns|
      ensures ShrunkNode(c.nodes[i], ns[i]) && Accurate(ns[i])
    {
      assert Keyed(c.nodes[i].store) && Accurate(c.nodes[i]);
      assert ns[i] == Refreshed(Purged(c.nodes[i], IdSet(ids), pf.deleted(i)), pf.informed(i));
      assert Purged(c.nodes[i], IdSet(ids), pf.deleted(i)).store.Keys <= c.nodes[i].store.Keys;
    }
    ShrunkKeepsInv(c, c1);
  }

  lemma {:induction false} DeleteRecordsStaysAccurate(c: State, ids: seq<nat>, pf: PurgeFaults, faults: Faults)
    requires Inv(c) && AllAccurate(c.nodes) && CleanFaults(faults) && Refreshing(pf)
    ensures AllAccurate(DeleteRecords(c, ids, pf, faults).0.nodes)
  {
    var ns := PurgeAll(c.nodes, IdSet(ids), pf);
    PurgedInv(c, ids, pf);
    BalancedStaysAccurate(c.(nodes := ns, nextId := RaiseAll(c.nextId, ns)), faults);
  }

  /** No holder of the id removed it without answering. */
  ghost predicate NoneSilent(ns: seq<Node>, id: nat, outs: nat -> SingleOutcome) {
    forall i :: 0 <= i < |ns| && id in ns[i].store ==> outs(i) != Unanswered(true)
  }

  /** A single delete keeps the counts right exactly when no node removed the record without answering. */
  lemma {:induction false} DeleteRecordAccurateIff(c: State, id: nat, outs: nat -> SingleOutcome)
    requires AllAccurate(c.nodes)
    ensures AllAccurate(DeleteRecord(c, id, outs).nodes) <==> NoneSilent(c.nodes, id, outs)
  {
    var ns := DeleteRecord(c, id, outs).nodes;
    forall i | 0 <= i < |ns|
      ensures Accurate(ns[i]) <==> !(id in c.nodes[i].store && outs(i) == Unanswered(true))
    {
      assert Accurate(c.nodes[i]) && ns[i] == DeleteOne(c.nodes[i], id, outs(i));
      if id in c.nodes[i].store {
        RemoveSize(c.nodes[i].store, {id});
      }
    }
  }

  lemma UpdateRecordStaysAccurate(c: State, rec: Record, outs: nat -> SingleOutcome)
    requires AllAccurate(c.nodes)
    ensures AllAccurate(UpdateRecord(c, rec, outs).nodes)
  {
    hide UpdateOne;
    var ns := UpdateRecord(c, rec, outs).nodes;
    forall i | 0 <= i < |ns|
      ensures Accurate(ns[i])
    {
      assert Accurate(c.nodes[i]);
      UpdateOneCounts(c.nodes[i], rec, outs(i));
    }
  }

  lemma UpdateOneCounts(n: Node, rec: Record, o: SingleOutcome)
    ensures Accurate(UpdateOne(n, rec, o)) <==> Accurate(n)
  {
    var m, m' := n.store, UpdateOne(n, rec, o).store;
    assert m'.Keys == m.Keys && |m| == |m.Keys| && |m'| == |m'.Keys|;
  }

  lemma UpdateNodesStaysAccurate(c: State, answered: nat -> bool)
    requires AllAccurate(c.nodes)
    ensures AllAccurate(UpdateNodes(c, answered).nodes)
  {
    var ns := UpdateNodes(c, answered).nodes;
    forall i | 0 <= i < |ns|
      ensures Accurate(ns[i])
    {
      assert Accurate(c.nodes[i]) && ns[i] == Refreshed(c.nodes[i], answered(i));
    }
  }

  lemma {:induction false} CreateStaysAccurate(c: State, rec: Record, o: CreateOutcome)
    requires Inv(c) && AllAccurate(c.nodes) && o != StoredButFailed
    ensures AllAccurate(CreateRecord(c, rec, o).0.nodes)
  {
  }

  lemma {:induction false} CreateWithIdStaysAccurate(c: State, r: Record, answers: nat -> bool, o: CreateOutcome)
    requires Inv(c) && AllAccurate(c.nodes) && SafeWithId(c, r, answers, o) && o != StoredButFailed
    ensures AllAccurate(CreateRecordWithId(c, r, answers, o).0.nodes)
  {
  }

  lemma {:induction false} BatchStaysAccurate(c: State, recs: seq<Record>, outs: Outcomes, fallback: CreateOutcome,
                                              pf: PurgeFaults, faults: Faults)
    requires Inv(c) && AllAccurate(c.nodes) && Fresh(c.nodes, recs) && CleanCreates(outs)
    requires fallback != StoredButFailed && CleanFaults(faults) && Refreshing(pf)
    ensures AllAccurate(CreateRecordsWithId(c, recs, outs, fallback, pf, faults).0.nodes)
  {
    hide Creator, Inv, Contents, AllIds, AllAccurate, Ids, BalanceNodes;
    if c.nodes != [] {
      var p := Spread(c, recs, outs, |c.nodes|);
      SpreadAccepts(c, recs, outs, |c.nodes|);
      assert recs[p.start..] == recs[p.start..|recs|];
      if p.last.None? {
      } else if p.start == |recs| {
        BalancedStaysAccurate(p.c, faults);
      } else if fallback == Stored {
        SliceAccepted(c, recs, p, p.last.value, |recs|);
        BalancedStaysAccurate(Creator(p.c, p.last.value, recs[p.start..], fallback).0, faults);
      } else {
        RestIsFresh(c, recs, p, |recs|);
        CreatorFails(p.c, p.last.value, recs[p.start..], fallback);
        DeleteRecordsStaysAccurate(p.c, IdsOf(recs), pf, faults);
      }
    }
  }

  lemma JoiningAccurate(c: State, store: Store, storeNext: nat)
    requires AllAccurate(c.nodes)
    ensures AllAccurate(Joining(c, store, storeNext).nodes)
  {
    var c1 := Joining(c, store, storeNext);
    forall i | 0 <= i < |c1.nodes|
      ensures Accurate(c1.nodes[i])
    {
      assert i < |c.nodes| ==> Accurate(c.nodes[i]);
    }
  }

  lemma {:induction false} JoinStaysAccurate(c: State, store: Store, storeNext: nat, faults: Faults)
    requires Inv(c) && AllAccurate(c.nodes) && MayJoin(c, store, storeNext) && CleanFaults(faults)
    ensures AllAccurate(AddNode(c, store, storeNext, faults).nodes)
  {
    JoiningInv(c, store, storeNext);
    JoiningAccurate(c, store, storeNext);
    BalancedStaysAccurate(Joining(c, store, storeNext), faults);
  }

  lemma {:induction false} LeaveStaysAccurate(c: State, id: nat, faults: Faults)
    requires Inv(c) && AllAccurate(c.nodes) && CleanFaults(faults) && LeavesAccurately(c, id, faults)
    ensures AllAccurate(Apply(c, Leave(id, faults)).nodes)
  {
    if c.nodes != [] && FindNode(c.nodes, id, 0) < |c.nodes| {
      LeaveAccurateIff(c, id, faults);
    }
  }

  // ----- runs -----

  /** Admissible, and nothing was applied behind the master's counters. */
  ghost predicate Sound(c: State, op: Op) {
    && Admissible(c, op)
    && match op {
         case CreateWithId(_, _, o) => o != StoredButFailed
         case CreateBatch(_, _, _, pf, _) => Refreshing(pf)
         case Delete(id, singles) => NoneSilent(c.nodes, id, singles)
         case DeleteMany(_, pf, _) => Refreshing(pf)
         case Leave(id, faults) => LeavesAccurately(c, id, faults)
         case _ => true
       }
  }

  lemma {:induction false} ApplyStaysAccurate(c: State, op: Op)
    requires Inv(c) && AllAccurate(c.nodes) && Sound(c, op)
    ensures AllAccurate(Apply(c, op).nodes)
  {
    match op
    case Create(rec, o) => CreateStaysAccurate(c, rec, o);
    case CreateWithId(rec, answers, o) => CreateWithIdStaysAccurate(c, rec, answers, o);
    case CreateBatch(recs, outs, fallback, pf, faults) => BatchStaysAccurate(c, recs, outs, fallback, pf, faults);
    case Update(rec, singles) => UpdateRecordStaysAccurate(c, rec, singles);
    case Delete(id, singles) => DeleteRecordAccurateIff(c, id, singles);
    case DeleteMany(ids, pf, faults) => DeleteRecordsStaysAccurate(c, ids, pf, faults);
    case Join(store, storeNext, faults) => JoinStaysAccurate(c, store, storeNext, faults);
    case Leave(id, faults) => LeaveStaysAccurate(c, id, faults);
    case Refresh(answered) => UpdateNodesStaysAccurate(c, answered);
  }

  ghost predicate SoundRun(c: State, ops: seq<Op>) {
    ops == [] || (SoundRun(c, ops[..|ops| - 1]) && Sound(RunOps(c, ops[..|ops| - 1]), ops[|ops| - 1]))
  }

  /** In every state a sound run reaches, the invariant holds and every cached count is right. */
  lemma {:induction false} AccurateOverRuns(c: State, ops: seq<Op>)
    requires Inv(c) && AllAccurate(c.nodes) && SoundRun(c, ops)
    ensures Inv(RunOps(c, ops)) && AllAccurate(RunOps(c, ops).nodes)
  {
    if ops != [] {
      AccurateOverRuns(c, ops[..|ops| - 1]);
      ApplyKeepsInv(RunOps(c, ops[..|ops| - 1]), ops[|ops| - 1]);
      ApplyStaysAccurate(RunOps(c, ops[..|ops| - 1]), ops[|ops| - 1]);
    }
  }

  /** After any sound run from an empty master, a bulk delete whose RPCs get through reports success exactly
      for distinct stored ids, and removes exactly those. */
  lemma {:induction false} DeleteAfterRun(ops: seq<Op>, ids: seq<nat>, pf: PurgeFaults, faults: Faults)
    requires SoundRun(State([], 1, 1), ops)
    requires forall i :: pf.deleted(i) && pf.informed(i)
    ensures var s := RunOps(State([], 1, 1), ops);
            var (s', ok) := DeleteRecords(s, ids, pf, faults);
      && (ok <==> NoRepeats(ids) && IdSet(ids) <= Contents(s.nodes).Keys)
      && Contents(s'.nodes) == Contents(s.nodes) - IdSet(ids)
  {
    EmptyClusterInv();
    AccurateOverRuns(State([], 1, 1), ops);
    var s := RunOps(State([], 1, 1), ops);
    DisjointAgree(s.nodes);
    DeleteRecordsSuccess(s, ids, pf, faults);
    DeleteRecordsRemoves(s, ids, pf, faults);
  }
}
