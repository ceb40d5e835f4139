/** The cluster invariant over whole runs of the master's handlers. */
module ClusterRuns {
  import opened Records
  import opened Nodes
  import opened NodeLists
  import opened Balance
  import opened Cluster
  import opened ClusterSteps
  import opened Batches
  import opened Deletes
  import opened Drain
  import Queries

  // ----- creating one record -----

  lemma OneIsFresh(ns: seq<Node>, r: Record)
    requires !HeldId(ns, r.id)
    ensures Fresh(ns, [r]) && Ids([r]) == {r.id}
    ensures forall i :: 0 <= i < |ns| ==> r.id !in ns[i].store
  {
  }

  lemma {:induction false} InsertOne(m: Store, r: Record)
    ensures Insert(m, [r]) == m[r.id := r]
  {
  }

  lemma NextIdIsFree(c: State)
    requires Inv(c)
    ensures !HeldId(c.nodes, c.nextId)
  {
  }

  /** Storing one record nobody holds on one node, with whatever counters. */
  lemma {:induction false} StoreOne(c: State, i: nat, r: Record, n: Node, next: nat)
    requires Inv(c) && i < |c.nodes| && !HeldId(c.nodes, r.id)
    requires n.store == c.nodes[i].store[r.id := r] && n.id == c.nodes[i].id
    requires n.storeNext == c.nodes[i].storeNext && n.nextRecordId <= next && c.nextId <= next && r.id < next
    ensures Inv(c.(nodes := c.nodes[i := n], nextId := next))
    ensures Contents(c.nodes[i := n]) == Contents(c.nodes)[r.id := r]
    ensures AllAccurate(c.nodes) && n.records == c.nodes[i].records + 1 ==> AllAccurate(c.nodes[i := n])
  {
    hide Contents, AllIds;
    OneIsFresh(c.nodes, r);
    InsertOne(c.nodes[i].store, r);
    InsertOne(Contents(c.nodes), r);
    AddedStaysDisjoint(c.nodes, i, [r], n);
    DisjointAgree(c.nodes);
    DisjointAgree(c.nodes[i := n]);
    AddedContents(c.nodes, i, [r], n);
    var ns' := c.nodes[i := n];
    forall j | 0 <= j < |ns'|
      ensures NodeBelow(ns'[j], next)
    {
      assert NodeBelow(c.nodes[j], c.nextId);
    }
    if AllAccurate(c.nodes) {
      assert Accurate(c.nodes[i]);
      assert n.store.Keys == c.nodes[i].store.Keys + {r.id};
      assert |n.store| == |n.store.Keys| && |c.nodes[i].store| == |c.nodes[i].store.Keys|;
    }
  }

  lemma NotHeldNotInUnion(ns: seq<Node>, id: nat)
    requires !HeldId(ns, id)
    ensures id !in Contents(ns)
  {
  }

  /** A create the node applies never collides: it succeeds and adds the record under the next id. */
  lemma {:induction false} CreateRecordNeverCollides(c: State, rec: Record)
    requires Inv(c) && c.nodes != []
    ensures var (c', ok) := CreateRecord(c, rec, Stored);
            ok && Contents(c'.nodes) == Contents(c.nodes)[c.nextId := rec.(id := c.nextId)]
    ensures c.nextId !in Contents(c.nodes)
    ensures Inv(CreateRecord(c, rec, Stored).0)
    ensures AllAccurate(c.nodes) ==> AllAccurate(CreateRecord(c, rec, Stored).0.nodes)
  {
    hide Contents, LeastLoaded, AllAccurate, HeldId, Inv;
    NextIdIsFree(c);
    NotHeldNotInUnion(c.nodes, c.nextId);
    var i, r := LeastLoaded(c.nodes), rec.(id := c.nextId);
    OneIsFresh(c.nodes, r);
    var n := c.nodes[i];
    assert r.id !in n.store;
    var n' := n.(store := n.store[r.id := r], records := n.records + 1, nextRecordId := c.nextId + 1);
    StoreOne(c, i, r, n', c.nextId + 1);
  }

  /** CreateRecord keeps the invariant exactly when a failed RPC was not applied. */
  lemma {:induction false} CreateRecordInvIff(c: State, rec: Record, o: CreateOutcome)
    requires Inv(c)
    ensures Inv(CreateRecord(c, rec, o).0) <==> c.nodes == [] || o != StoredButFailed
  {
    if c.nodes != [] {
      NextIdIsFree(c);
      var i, r := LeastLoaded(c.nodes), rec.(id := c.nextId);
      assert r.id !in c.nodes[i].store;
      var c' := CreateRecord(c, rec, o).0;
      if o == Stored {
        CreateRecordNeverCollides(c, rec);
      } else if o == StoredButFailed {
        assert c.nextId in c'.nodes[i].store;
        assert !NodeBelow(c'.nodes[i], c'.nextId);
      } else {
        SameNode(c.nodes, i);
      }
    }
  }

  /** When creating a record with a given id keeps the invariant. */
  ghost predicate SafeWithId(c: State, r: Record, answers: nat -> bool, o: CreateOutcome) {
    || c.nodes == []
    || Reported(c.nodes, r.id, answers)
    || o == NotStored
    || o == RolledBack
    || r.id in c.nodes[LeastLoaded(c.nodes)].store
    || (!HeldId(c.nodes, r.id) && (o == Stored || r.id < c.nextId))
  }

  lemma SharedId(ns: seq<Node>, i: nat, j: nat, id: nat)
    requires i < |ns| && j < |ns| && i != j && id in ns[i].store && id in ns[j].store
    ensures !PairwiseDisjoint(ns)
  {
  }

  /** CreateRecordWithId keeps the invariant exactly when it is safe. */
  lemma {:induction false} CreateRecordWithIdInvIff(c: State, r: Record, answers: nat -> bool, o: CreateOutcome)
    requires Inv(c)
    ensures Inv(CreateRecordWithId(c, r, answers, o).0) <==> SafeWithId(c, r, answers, o)
  {
    if c.nodes != [] && !Reported(c.nodes, r.id, answers) {
      var i := LeastLoaded(c.nodes);
      var n := c.nodes[i];
      var c' := CreateRecordWithId(c, r, answers, o).0;
      if r.id in n.store || o == NotStored || o == RolledBack {
        SameNode(c.nodes, i);
      } else if HeldId(c.nodes, r.id) {
        var j :| 0 <= j < |c.nodes| && r.id in c.nodes[j].store;
        SharedId(c'.nodes, i, j, r.id);
      } else {
        assert NodeBelow(n, c.nextId);
        if o == Stored || r.id < c.nextId {
          StoreOne(c, i, r, c'.nodes[i], c'.nextId);
        } else {
          assert r.id in c'.nodes[i].store;
          assert !NodeBelow(c'.nodes[i], c'.nextId);
        }
      }
    }
  }

  /** With every node answering, the call succeeds exactly when nobody holds the id, there is a node and its
      create is applied; then the record joins the union. */
  lemma {:induction false} CreateRecordWithIdSucceeds(c: State, r: Record, answers: nat -> bool, o: CreateOutcome)
    requires Inv(c) && forall i :: 0 <= i < |c.nodes| ==> answers(i)
    ensures var (c', ok) := CreateRecordWithId(c, r, answers, o);
      && (ok <==> c.nodes != [] && r.id !in Contents(c.nodes) && o == Stored)
      && (ok ==> Contents(c'.nodes) == Contents(c.nodes)[r.id := r])
  {
    AllIdsIsHeld(c.nodes, r.id);
    if c.nodes != [] && !HeldId(c.nodes, r.id) && o == Stored {
      var i := LeastLoaded(c.nodes);
      assert NodeBelow(c.nodes[i], c.nextId);
      var c' := CreateRecordWithId(c, r, answers, o).0;
      StoreOne(c, i, r, c'.nodes[i], c'.nextId);
    }
  }

  // ----- adding a node -----

  /** The new node holds nothing the others do, and nothing at or above the id the master will hand out next. */
  ghost predicate MayJoin(c: State, store: Store, storeNext: nat) {
    && Keyed(store)
    && store.Keys !! AllIds(c.nodes)
    && forall id :: id in store ==> id < SetNextIdIfHigher(c.nextId, storeNext)
  }

  ghost function Joining(c: State, store: Store, storeNext: nat): State {
    State(c.nodes + [Node(c.nextNodeId, store, storeNext, |store|, storeNext)],
          SetNextIdIfHigher(c.nextId, storeNext), c.nextNodeId + 1)
  }

  lemma {:induction false} JoiningInv(c: State, store: Store, storeNext: nat)
    requires Inv(c)
    ensures Inv(Joining(c, store, storeNext)) <==> MayJoin(c, store, storeNext)
  {
    var c' := Joining(c, store, storeNext);
    var ns, n := c'.nodes, c'.nodes[|c.nodes|];
    forall i | 0 <= i < |c.nodes|
      ensures ns[i] == c.nodes[i] && NodeBelow(ns[i], c'.nextId) && Keyed(ns[i].store)
    {
      assert NodeBelow(c.nodes[i], c.nextId);
    }
    if MayJoin(c, store, storeNext) {
      assert NodeBelow(n, c'.nextId);
      forall i, j | 0 <= i < j < |ns|
        ensures DisjointNodes(ns[i], ns[j]) && ns[i].id != ns[j].id
      {
        if j < |c.nodes| { assert DisjointNodes(c.nodes[i], c.nodes[j]); }
        else { FreshForNode(c.nodes, i, store.Keys); }
      }
    }
    assert n.store == store;
    if Inv(c') {
      assert Keyed(n.store) && NodeBelow(n, c'.nextId);
    }
    forall id | id in store.Keys && id in AllIds(c.nodes)
      ensures !PairwiseDisjoint(ns)
    {
      var i :| 0 <= i < |c.nodes| && id in c.nodes[i].store.Keys;
      SharedId(ns, i, |c.nodes|, id);
    }
  }

  // ----- runs -----

  datatype Op =
    | Create(rec: Record, outcome: CreateOutcome)
    | CreateWithId(rec: Record, answers: nat -> bool, outcome: CreateOutcome)
    | CreateBatch(recs: seq<Record>, outs: Outcomes, fallback: CreateOutcome, pf: PurgeFaults, faults: Faults)
    | Update(rec: Record, singles: nat -> SingleOutcome)
    | Delete(id: nat, singles: nat -> SingleOutcome)
    | DeleteMany(ids: seq<nat>, pf: PurgeFaults, faults: Faults)
    | Join(store: Store, storeNext: nat, faults: Faults)
    | Leave(id: nat, faults: Faults)
    | Refresh(answered: nat -> bool)

  ghost function Apply(c: State, op: Op): State {
    match op
    case Create(rec, o) => CreateRecord(c, rec, o).0
    case CreateWithId(rec, answers, o) => CreateRecordWithId(c, rec, answers, o).0
    case CreateBatch(recs, outs, fallback, pf, faults) =>
      CreateRecordsWithId(c, recs, outs, fallback, pf, faults).0
    case Update(rec, singles) => UpdateRecord(c, rec, singles)
    case Delete(id, singles) => DeleteRecord(c, id, singles)
    case DeleteMany(ids, pf, faults) => DeleteRecords(c, ids, pf, faults).0
    case Join(store, storeNext, faults) => AddNode(c, store, storeNext, faults)
    case Leave(id, faults) =>
      var r := DeleteNode(c, id, faults);
      if r.Removed? then r.c else c
    case Refresh(answered) => UpdateNodes(c, answered)
  }

  /** Failed RPCs were not applied, transfers' deletes got through, and ids chosen by the caller are new. */
  ghost predicate Admissible(c: State, op: Op) {
    match op
    case Create(_, o) => o != StoredButFailed
    case CreateWithId(rec, answers, o) => SafeWithId(c, rec, answers, o)
    case CreateBatch(recs, outs, fallback, _, faults) =>
      Fresh(c.nodes, recs) && CleanCreates(outs) && fallback != StoredButFailed && CleanFaults(faults)
    case Update(_, _) => true
    case Delete(_, _) => true
    case DeleteMany(_, _, faults) => CleanFaults(faults)
    case Join(store, storeNext, faults) => MayJoin(c, store, storeNext) && CleanFaults(faults)
    case Leave(_, faults) => CleanFaults(faults)
    case Refresh(_) => true
  }

  /** A clean fallback failure leaves the accepted records; the cleanup then keeps the invariant. */
  lemma {:induction false} FallbackFailureKeepsInv(c: State, recs: seq<Record>, p: Progress,
                                                   fallback: CreateOutcome, pf: PurgeFaults, faults: Faults)
    requires Fresh(c.nodes, recs) && Accepted(c, recs, p) && p.last.Some? && p.last.value < |c.nodes|
    requires fallback == NotStored || fallback == RolledBack
    requires CleanFaults(faults)
    ensures Inv(DeleteRecords(Creator(p.c, p.last.value, recs[p.start..], fallback).0, IdsOf(recs), pf, faults).0)
  {
    assert recs[p.start..] == recs[p.start..|recs|];
    RestIsFresh(c, recs, p, |recs|);
    CreatorFails(p.c, p.last.value, recs[p.start..], fallback);
    DeleteRecordsKeepsInv(p.c, IdsOf(recs), pf, faults);
  }

  lemma {:induction false} BatchKeepsInv(c: State, recs: seq<Record>, outs: Outcomes, fallback: CreateOutcome,
                                         pf: PurgeFaults, faults: Faults)
    requires Inv(c) && Fresh(c.nodes, recs) && CleanCreates(outs) && fallback != StoredButFailed
    requires CleanFaults(faults)
    ensures Inv(CreateRecordsWithId(c, recs, outs, fallback, pf, faults).0)
  {
    if c.nodes != [] {
      var p := Spread(c, recs, outs, |c.nodes|);
      SpreadAccepts(c, recs, outs, |c.nodes|);
      if p.last.None? {
      } else if p.start < |recs| && fallback != Stored {
        FallbackFailureKeepsInv(c, recs, p, fallback, pf, faults);
      } else {
        SplitPlacesAll(c, recs, outs, fallback, pf, faults);
      }
    }
  }

  lemma {:induction false} ApplyKeepsInv(c: State, op: Op)
    requires Inv(c) && Admissible(c, op)
    ensures Inv(Apply(c, op))
  {
    match op
    case Create(rec, o) => CreateRecordInvIff(c, rec, o);
    case CreateWithId(rec, answers, o) => CreateRecordWithIdInvIff(c, rec, answers, o);
    case CreateBatch(recs, outs, fallback, pf, faults) => BatchKeepsInv(c, recs, outs, fallback, pf, faults);
    case Update(rec, singles) => UpdateRecordKeepsInv(c, rec, singles);
    case Delete(id, singles) => DeleteRecordKeepsInv(c, id, singles);
    case DeleteMany(ids, pf, faults) => DeleteRecordsKeepsInv(c, ids, pf, faults);
    case Join(store, storeNext, faults) =>
      JoiningInv(c, store, storeNext);
      BalancedKeepsAll(Joining(c, store, storeNext), faults);
    case Leave(id, faults) => DeleteNodeKeepsInv(c, id, faults);
    case Refresh(answered) => UpdateNodesKeepsInv(c, answered);
  }

  ghost function RunOps(c: State, ops: seq<Op>): State {
    if ops == [] then c else Apply(RunOps(c, ops[..|ops| - 1]), ops[|ops| - 1])
  }

  ghost predicate AdmissibleRun(c: State, ops: seq<Op>) {
    ops == [] ||
    (AdmissibleRun(c, ops[..|ops| - 1]) && Admissible(RunOps(c, ops[..|ops| - 1]), ops[|ops| - 1]))
  }

  /** In every state an admissible run reaches, the invariant holds and a create that is applied succeeds under
      an id nobody holds. */
  lemma {:induction false} InvOverRuns(c: State, ops: seq<Op>, rec: Record)
    requires Inv(c) && AdmissibleRun(c, ops)
    ensures Inv(RunOps(c, ops))
    ensures var s := RunOps(c, ops); s.nodes != [] ==>
              s.nextId !in Contents(s.nodes) && CreateRecord(s, rec, Stored).1
  {
    if ops != [] {
      InvOverRuns(c, ops[..|ops| - 1], rec);
      ApplyKeepsInv(RunOps(c, ops[..|ops| - 1]), ops[|ops| - 1]);
    }
    if RunOps(c, ops).nodes != [] {
      CreateRecordNeverCollides(RunOps(c, ops), rec);
    }
  }

  /** A read, update or delete keeps the invariant under every interleaving of its fan-out, whatever fails or is
      cancelled, and whether or not a node acted before it failed. */
  lemma {:induction false} QueryKeepsInv(q: Queries.Query, faulty: set<nat>, c: State, ts: seq<Queries.Step>)
    requires Inv(c) && Queries.IsRun(q, faulty, Queries.Start(c.nodes), ts)
    ensures Inv(c.(nodes := Queries.Final(q, faulty, Queries.Start(c.nodes), ts).nodes))
  {
    hide Inv, Queries.IsRun, Queries.Final;
    var outs := Queries.RunIsSpecified(q, faulty, c, ts);
    if q.Update? {
      UpdateRecordKeepsInv(c, q.rec, outs);
    } else if q.Delete? {
      DeleteRecordKeepsInv(c, q.id, outs);
    }
  }

  /** The whole call over its fan-out: as long as no node fails to answer the existence query, under every
      interleaving and cancellation it succeeds exactly when nobody holds the id, there is a node and it applies
      the create. */
  lemma {:induction false} CreateWithIdOverFanOut(c: State, r: Record, o: CreateOutcome, ts: seq<Queries.Step>)
    returns (answers: nat -> bool)
    requires Inv(c) && Queries.IsRun(Queries.Exists(r.id), {}, Queries.Start(c.nodes), ts)
    requires Queries.Final(Queries.Exists(r.id), {}, Queries.Start(c.nodes), ts).net.caller.Returned?
    ensures var found := Queries.Final(Queries.Exists(r.id), {}, Queries.Start(c.nodes), ts).net.results != [];
            var (c', ok) := CreateRecordWithId(c, r, answers, o);
      && (found <==> Reported(c.nodes, r.id, answers))
      && (ok <==> c.nodes != [] && r.id !in Contents(c.nodes) && o == Stored)
      && (ok ==> Contents(c'.nodes) == Contents(c.nodes)[r.id := r])
  {
    hide Queries.IsRun, Queries.Final, Inv;
    answers := Queries.ExistenceQuery(r.id, {}, c.nodes, ts);
    AllIdsIsHeld(c.nodes, r.id);
    if !Reported(c.nodes, r.id, answers) {
      CreateRecordWithIdSucceeds(c, r, answers, o);
    }
  }

  // ----- creates without the invariant -----

  /** On disjoint nodes, whatever their ids: a create that the node applies succeeds and keeps ids unique exactly
      when nobody holds the next id. */
  lemma {:induction false} CreateRecordUniqueIff(c: State, rec: Record)
    requires AllKeyed(c.nodes) && PairwiseDisjoint(c.nodes) && c.nodes != []
    ensures var (c', ok) := CreateRecord(c, rec, Stored);
      && (ok && PairwiseDisjoint(c'.nodes) <==> !HeldId(c.nodes, c.nextId))
      && (!HeldId(c.nodes, c.nextId) ==> AllKeyed(c'.nodes) && AllIds(c'.nodes) == AllIds(c.nodes) + {c.nextId})
  {
    hide Contents, AllIds, LeastLoaded;
    var i, r := LeastLoaded(c.nodes), rec.(id := c.nextId);
    var c' := CreateRecord(c, rec, Stored).0;
    if HeldId(c.nodes, c.nextId) {
      if c.nextId !in c.nodes[i].store {
        var j :| 0 <= j < |c.nodes| && c.nextId in c.nodes[j].store;
        SharedId(c'.nodes, i, j, c.nextId);
      }
    } else {
      OneIsFresh(c.nodes, r);
      InsertOne(c.nodes[i].store, r);
      AddedStaysDisjoint(c.nodes, i, [r], c'.nodes[i]);
      AddedIds(c.nodes, i, [r], c'.nodes[i]);
    }
  }

  ghost function CreateEach(c: State, recs: seq<Record>): State {
    if recs == [] then c else CreateRecord(CreateEach(c, recs[..|recs| - 1]), recs[|recs| - 1], Stored).0
  }

  /** Each of these creates succeeds and keeps ids unique. */
  ghost predicate AllUnique(c: State, recs: seq<Record>) {
    recs == [] ||
    (var init := recs[..|recs| - 1];
     var (c', ok) := CreateRecord(CreateEach(c, init), recs[|recs| - 1], Stored);
     AllUnique(c, init) && ok && PairwiseDisjoint(c'.nodes))
  }

  ghost predicate NoneHeld(ns: seq<Node>, lo: nat, hi: nat) {
    forall id :: lo <= id < hi ==> !HeldId(ns, id)
  }

  /** The creates so far succeeded: their ids are held besides those of before. */
  ghost predicate Handed(c: State, c': State, k: nat) {
    && AllKeyed(c'.nodes) && PairwiseDisjoint(c'.nodes)
    && |c'.nodes| == |c.nodes|
    && c'.nextId == c.nextId + k
    && forall id: nat :: HeldId(c'.nodes, id) <==> HeldId(c.nodes, id) || c.nextId <= id < c'.nextId
  }

  lemma {:induction false} HandOne(c: State, c': State, k: nat, rec: Record)
    requires Handed(c, c', k) && c.nodes != []
    ensures var (d, ok) := CreateRecord(c', rec, Stored);
      && (ok && PairwiseDisjoint(d.nodes) <==> !HeldId(c.nodes, c.nextId + k))
      && (ok && PairwiseDisjoint(d.nodes) ==> Handed(c, d, k + 1))
  {
    hide HeldId, AllIds, LeastLoaded, PairwiseDisjoint, AllKeyed;
    CreateRecordUniqueIff(c', rec);
    var d := CreateRecord(c', rec, Stored).0;
    forall id: nat
      ensures id in AllIds(c'.nodes) <==> HeldId(c'.nodes, id)
      ensures id in AllIds(d.nodes) <==> HeldId(d.nodes, id)
    {
      AllIdsIsHeld(c'.nodes, id);
      AllIdsIsHeld(d.nodes, id);
    }
  }

  /** The next creates all succeed and keep ids unique exactly when nobody holds any of the ids they are given. */
  lemma {:induction false} CreatesUniqueIff(c: State, recs: seq<Record>)
    requires AllKeyed(c.nodes) && PairwiseDisjoint(c.nodes) && c.nodes != []
    ensures AllUnique(c, recs) <==> NoneHeld(c.nodes, c.nextId, c.nextId + |recs|)
    ensures AllUnique(c, recs) ==> Handed(c, CreateEach(c, recs), |recs|)
  {
    hide HeldId, PairwiseDisjoint, AllKeyed, CreateRecord;
    if recs != [] {
      hide Handed;
      var init, last := recs[..|recs| - 1], recs[|recs| - 1];
      CreatesUniqueIff(c, init);
      if AllUnique(c, init) {
        HandOne(c, CreateEach(c, init), |init|, last);
      }
    }
  }

  /** A new master hands out ids from 1 on, whatever its nodes hold: over disjoint nodes, levelled by the balance it
      starts with, its first creates are right exactly when no node holds one of the ids 1, 2, ... they get. */
  lemma {:induction false} NewMasterUniqueIff(ns: seq<Node>, nextNodeId: nat, faults: Faults, recs: seq<Record>)
    requires AllKeyed(ns) && PairwiseDisjoint(ns) && ns != [] && CleanFaults(faults)
    ensures AllUnique(Balanced(State(ns, 1, nextNodeId), faults), recs) <==> NoneHeld(ns, 1, 1 + |recs|)
  {
    hide HeldId, AllIds, PairwiseDisjoint, AllKeyed, BalanceNodes, CreateRecord;
    var c := Balanced(State(ns, 1, nextNodeId), faults);
    BalanceLosesNoId(ns, faults);
    BalanceKeepsDisjoint(ns, faults);
    CreatesUniqueIff(c, recs);
    forall id: nat
      ensures HeldId(c.nodes, id) <==> HeldId(ns, id)
    {
      AllIdsIsHeld(c.nodes, id);
      AllIdsIsHeld(ns, id);
    }
  }

  /** The smallest failing case: over a node that stores record 1, the first create of a new master puts a second
      record 1 on the emptier node. */
  lemma {:induction false} NewMasterRepeatsIds(r: Record, rec: Record)
    requires r.id == 1
    ensures var c := State([Node(1, map[1 := r], 2, 1, 2), Node(2, map[], 1, 0, 1)], 1, 3);
            var (c', ok) := CreateRecord(c, rec, Stored);
            PairwiseDisjoint(c.nodes) && AllAccurate(c.nodes) && !Inv(c) && ok && !PairwiseDisjoint(c'.nodes)
  {
    var c := State([Node(1, map[1 := r], 2, 1, 2), Node(2, map[], 1, 0, 1)], 1, 3);
    assert !NodeBelow(c.nodes[0], 1) by { assert 1 in c.nodes[0].store; }
    assert LeastLoaded(c.nodes) == 1 by {
      var i := LeastLoaded(c.nodes);
      assert c.nodes[i].records <= c.nodes[1].records == 0;
    }
    SharedId(CreateRecord(c, rec, Stored).0.nodes, 0, 1, 1);
  }

  /** A master without nodes starts a run. */
  lemma EmptyClusterInv()
    ensures Inv(State([], 1, 1)) && AllAccurate([])
  {
  }
}
