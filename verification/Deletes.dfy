/** Bulk and single deletes, and updates, against the union of the nodes. */
module Deletes {
  import opened Records
  import opened Nodes
  import opened NodeLists
  import opened Balance
  import opened Cluster
  import opened ClusterSteps

  // ----- counting what a bulk delete removes -----

  lemma RemovedCount(store: Store, ids: set<nat>)
    ensures |store - ids| == |store| - |store.Keys * ids|
  {
  }

  lemma AllIdsSplit(ns: seq<Node>)
    requires ns != []
    ensures AllIds(ns) == AllIds(ns[..|ns| - 1]) + ns[|ns| - 1].store.Keys
  {
  }

  lemma PrefixApart(ns: seq<Node>)
    requires ns != [] && PairwiseDisjoint(ns)
    ensures PairwiseDisjoint(ns[..|ns| - 1])
    ensures AllIds(ns[..|ns| - 1]) !! ns[|ns| - 1].store.Keys
  {
  }

  lemma MeetSize(a: set<nat>, b: set<nat>, s: set<nat>)
    requires a !! b
    ensures |(a + b) * s| == |a * s| + |b * s|
  {
    assert (a + b) * s == a * s + b * s;
  }

  lemma PurgeSplit(ns: seq<Node>, ids: set<nat>, pf: PurgeFaults)
    requires ns != [] && pf.deleted(|ns| - 1) && pf.informed(|ns| - 1)
    ensures var all, k := PurgeAll(ns, ids, pf), |ns| - 1;
            all[..k] == PurgeAll(ns[..k], ids, pf) && all[k].records == |ns[k].store - ids|
  {
  }

  /** Deleting everywhere and refreshing lowers the accurate total by the number of ids that were stored. */
  lemma {:induction false} PurgeLowersTotal(ns: seq<Node>, ids: set<nat>, pf: PurgeFaults)
    requires PairwiseDisjoint(ns) && AllAccurate(ns)
    requires forall i :: 0 <= i < |ns| ==> pf.deleted(i) && pf.informed(i)
    ensures Total(PurgeAll(ns, ids, pf)) == Total(ns) - |AllIds(ns) * ids|
  {
    if ns == [] {
      assert AllIds(ns) * ids == {};
    } else {
      hide AllIds, PurgeAll, PairwiseDisjoint, Refreshed;
      var init, last := ns[..|ns| - 1], ns[|ns| - 1];
      PrefixApart(ns);
      assert AllAccurate(init) by {
        forall i | 0 <= i < |init| ensures Accurate(init[i]) { assert Accurate(ns[i]); }
      }
      PurgeLowersTotal(init, ids, pf);
      PurgeSplit(ns, ids, pf);
      AllIdsSplit(ns);
      MeetSize(AllIds(init), last.store.Keys, ids);
      RemovedCount(last.store, ids);
      assert Accurate(last);
    }
  }

  /** A listing of ids has as many members as entries exactly when none repeats. */
  lemma {:induction false} DistinctIffFull(ids: seq<nat>)
    ensures |IdSet(ids)| <= |ids|
    ensures |IdSet(ids)| == |ids| <==> NoRepeats(ids)
  {
    if ids == [] {
      assert IdSet(ids) == {};
    } else {
      var init, last := ids[..|ids| - 1], ids[|ids| - 1];
      DistinctIffFull(init);
      assert IdSet(ids) == IdSet(init) + {last} by {
        assert ids == init + [last];
      }
      if last in init {
        assert IdSet(ids) == IdSet(init);
        var i :| 0 <= i < |init| && init[i] == last;
        assert ids[i] == ids[|ids| - 1];
      } else {
        assert last !in IdSet(init);
        assert NoRepeats(init) ==> NoRepeats(ids);
        assert NoRepeats(ids) ==> NoRepeats(init);
      }
    }
  }

  lemma MeetIsAll(a: set<nat>, s: set<nat>)
    ensures |a * s| <= |s|
    ensures |a * s| == |s| <==> s <= a
  {
    assert s == a * s + (s - a);
    assert |s| == |a * s| + |s - a|;
    if |a * s| == |s| {
      assert s - a == {};
      forall x | x in s ensures x in a { assert x !in s - a; }
    } else {
      assert s - a != {};
    }
  }

  /** With disjoint, accurately counted nodes whose deletes and status queries get through, a bulk delete
      reports success exactly when the ids are distinct and all stored, however the balance in between fails. */
  lemma {:induction false} DeleteRecordsSuccess(c: State, ids: seq<nat>, pf: PurgeFaults, faults: Faults)
    requires PairwiseDisjoint(c.nodes) && AllAccurate(c.nodes)
    requires forall i :: 0 <= i < |c.nodes| ==> pf.deleted(i) && pf.informed(i)
    ensures DeleteRecords(c, ids, pf, faults).1 <==> NoRepeats(ids) && IdSet(ids) <= AllIds(c.nodes)
  {
    var s := IdSet(ids);
    var ns := PurgeAll(c.nodes, s, pf);
    PurgeLowersTotal(c.nodes, s, pf);
    BalanceNeverUnderflows(ns, faults);
    DistinctIffFull(ids);
    MeetIsAll(AllIds(c.nodes), s);
  }

  // ----- the records that remain -----

  /** Node by node, `b` is `a` without `ids`. */
  ghost predicate Without(a: seq<Node>, b: seq<Node>, ids: set<nat>) {
    |a| == |b| && forall i :: 0 <= i < |a| ==> b[i].store == a[i].store - ids
  }

  lemma WithoutHolds(a: seq<Node>, b: seq<Node>, ids: set<nat>, id: nat, r: Record)
    requires Without(a, b, ids)
    ensures Holds(b, id, r) <==> Holds(a, id, r) && id !in ids
  {
  }

  lemma WithoutAgrees(a: seq<Node>, b: seq<Node>, ids: set<nat>)
    requires Without(a, b, ids) && AllAgree(a)
    ensures AllAgree(b)
  {
  }

  lemma WithoutContents(a: seq<Node>, b: seq<Node>, ids: set<nat>)
    requires Without(a, b, ids) && AllAgree(a)
    ensures AllAgree(b) && Contents(b) == Contents(a) - ids
  {
    WithoutAgrees(a, b, ids);
    hide Contents, Without, AllAgree;
    var m, m' := Contents(a) - ids, Contents(b);
    forall id | id in m'
      ensures id in m && m'[id] == m[id]
    {
      WithoutOne(a, b, ids, id, m'[id]);
    }
    forall id | id in m
      ensures id in m'
    {
      WithoutOne(a, b, ids, id, m[id]);
    }
    assert m.Keys == m'.Keys;
    SameMap(m, m');
  }

  lemma WithoutOne(a: seq<Node>, b: seq<Node>, ids: set<nat>, id: nat, r: Record)
    requires Without(a, b, ids) && AllAgree(a) && AllAgree(b)
    ensures id in Contents(b) && Contents(b)[id] == r <==>
            id !in ids && id in Contents(a) && Contents(a)[id] == r
  {
    WithoutHolds(a, b, ids, id, r);
    ContentsHolds(a, id, r);
    ContentsHolds(b, id, r);
  }

  /** With every delete applied exactly the named records leave the union, however the balance fails. */
  lemma {:induction false} DeleteRecordsRemoves(c: State, ids: seq<nat>, pf: PurgeFaults, faults: Faults)
    requires AllKeyed(c.nodes) && AllAgree(c.nodes)
    requires forall i :: 0 <= i < |c.nodes| ==> pf.deleted(i)
    ensures Contents(DeleteRecords(c, ids, pf, faults).0.nodes) == Contents(c.nodes) - IdSet(ids)
  {
    var ns := PurgeAll(c.nodes, IdSet(ids), pf);
    WithoutContents(c.nodes, ns, IdSet(ids));
    BalanceKeepsRecords(ns, faults);
  }

  // ----- invariants -----

  ghost predicate ShrunkNode(a: Node, b: Node) {
    && b.store.Keys <= a.store.Keys
    && Keyed(b.store)
    && b.id == a.id
    && b.storeNext == a.storeNext
    && (b.nextRecordId == a.nextRecordId || b.nextRecordId == a.storeNext)
  }

  /** Node by node, `b` holds ids that `a` holds, keeps its node ids and caches no higher next id. */
  ghost predicate Shrunk(a: seq<Node>, b: seq<Node>) {
    |a| == |b| && forall i :: 0 <= i < |a| ==> ShrunkNode(a[i], b[i])
  }

  lemma ShrunkKeepsInv(c: State, c': State)
    requires Inv(c) && Shrunk(c.nodes, c'.nodes) && c'.nextId >= c.nextId && c'.nextNodeId == c.nextNodeId
    ensures Inv(c')
  {
  }

  lemma DeleteRecordsKeepsInv(c: State, ids: seq<nat>, pf: PurgeFaults, faults: Faults)
    requires Inv(c) && forall i :: CleanTransfer(faults(i))
    ensures Inv(DeleteRecords(c, ids, pf, faults).0)
  {
    var ns := PurgeAll(c.nodes, IdSet(ids), pf);
    var c1 := c.(nodes := ns, nextId := RaiseAll(c.nextId, ns));
    forall i | 0 <= i < |ns|
      ensures ShrunkNode(c.nodes[i], ns[i])
    {
      assert Keyed(c.nodes[i].store);
      assert ns[i] == Refreshed(Purged(c.nodes[i], IdSet(ids), pf.deleted(i)), pf.informed(i));
      assert Purged(c.nodes[i], IdSet(ids), pf.deleted(i)).store.Keys <= c.nodes[i].store.Keys;
    }
    ShrunkKeepsInv(c, c1);
    BalancedKeepsAll(c1, faults);
  }

  // ----- the fan-out of a bulk delete -----

  /** One step of the worker of node i: its delete and status RPCs, then raising the master's next id. */
  datatype PurgeStep = Work(i: nat) | Raise(i: nat)

  datatype Purging = Purging(c: State, worked: set<nat>, raised: set<nat>)

  ghost predicate PurgeEnabled(p: Purging, t: PurgeStep) {
    t.i < |p.c.nodes| && if t.Work? then t.i !in p.worked else t.i in p.worked && t.i !in p.raised
  }

  ghost function PurgeDo(p: Purging, ids: set<nat>, pf: PurgeFaults, t: PurgeStep): Purging
    requires PurgeEnabled(p, t)
  {
    var n := p.c.nodes[t.i];
    match t
    case Work(i) =>
      Purging(p.c.(nodes := p.c.nodes[i := Refreshed(Purged(n, ids, pf.deleted(i)), pf.informed(i))]),
              p.worked + {i}, p.raised)
    case Raise(i) =>
      Purging(p.c.(nextId := SetNextIdIfHigher(p.c.nextId, n.nextRecordId)), p.worked, p.raised + {i})
  }

  ghost predicate IsPurge(p: Purging, ids: set<nat>, pf: PurgeFaults, ts: seq<PurgeStep>)
    decreases |ts|
  {
    ts == [] || (PurgeEnabled(p, ts[0]) && IsPurge(PurgeDo(p, ids, pf, ts[0]), ids, pf, ts[1..]))
  }

  ghost function PurgeEnd(p: Purging, ids: set<nat>, pf: PurgeFaults, ts: seq<PurgeStep>): Purging
    requires IsPurge(p, ids, pf, ts)
    decreases |ts|
  {
    if ts == [] then p else PurgeEnd(PurgeDo(p, ids, pf, ts[0]), ids, pf, ts[1..])
  }

  /** Nodes are purged as far as their workers got, and the next id is the highest asked for so far. */
  ghost predicate PurgeStands(c: State, all: seq<Node>, p: Purging) {
    && |p.c.nodes| == |c.nodes| == |all| && p.c.nextNodeId == c.nextNodeId
    && p.raised <= p.worked
    && (forall i :: 0 <= i < |all| ==> p.c.nodes[i] == if i in p.worked then all[i] else c.nodes[i])
    && c.nextId <= p.c.nextId
    && (forall i :: i in p.raised ==> i < |all| && all[i].nextRecordId < p.c.nextId)
    && (p.c.nextId == c.nextId || exists i :: i in p.raised && i < |all| && p.c.nextId == all[i].nextRecordId + 1)
  }

  lemma {:induction false} PurgeStepStands(c: State, ids: set<nat>, pf: PurgeFaults, p: Purging, t: PurgeStep)
    requires PurgeStands(c, PurgeAll(c.nodes, ids, pf), p) && PurgeEnabled(p, t)
    ensures PurgeStands(c, PurgeAll(c.nodes, ids, pf), PurgeDo(p, ids, pf, t))
  {
    hide Refreshed, Purged;
    var all, p' := PurgeAll(c.nodes, ids, pf), PurgeDo(p, ids, pf, t);
    if t.Raise? && p'.c.nextId != p.c.nextId {
      assert t.i in p'.raised && p'.c.nextId == all[t.i].nextRecordId + 1;
    }
  }

  lemma {:induction false} PurgeRunStands(c: State, ids: set<nat>, pf: PurgeFaults, p: Purging, ts: seq<PurgeStep>)
    requires PurgeStands(c, PurgeAll(c.nodes, ids, pf), p) && IsPurge(p, ids, pf, ts)
    ensures PurgeStands(c, PurgeAll(c.nodes, ids, pf), PurgeEnd(p, ids, pf, ts))
    decreases |ts|
  {
    hide PurgeStands, PurgeEnabled, PurgeDo, PurgeAll;
    if ts != [] {
      PurgeStepStands(c, ids, pf, p, ts[0]);
      PurgeRunStands(c, ids, pf, PurgeDo(p, ids, pf, ts[0]), ts[1..]);
    }
  }

  /** However the workers interleave, once all are done the nodes and the next id are those of one pass in order. */
  lemma {:induction false} PurgeInAnyOrder(c: State, ids: set<nat>, pf: PurgeFaults, ts: seq<PurgeStep>)
    requires IsPurge(Purging(c, {}, {}), ids, pf, ts)
    requires forall i :: 0 <= i < |c.nodes| ==> i in PurgeEnd(Purging(c, {}, {}), ids, pf, ts).raised
    ensures var ns := PurgeAll(c.nodes, ids, pf);
            PurgeEnd(Purging(c, {}, {}), ids, pf, ts).c == c.(nodes := ns, nextId := RaiseAll(c.nextId, ns))
  {
    hide PurgeAll, IsPurge, PurgeEnd;
    var all, p := PurgeAll(c.nodes, ids, pf), PurgeEnd(Purging(c, {}, {}), ids, pf, ts);
    PurgeRunStands(c, ids, pf, Purging(c, {}, {}), ts);
    assert p.c.nodes == all;
    RaisedIsHighest(c.nextId, all, p.c.nextId);
  }

  /** RaiseAll is the least id not below `next` and above every cached next id. */
  lemma RaisedIsHighest(next: nat, ns: seq<Node>, n: nat)
    requires next <= n && forall i :: 0 <= i < |ns| ==> ns[i].nextRecordId < n
    requires n == next || exists i :: 0 <= i < |ns| && n == ns[i].nextRecordId + 1
    ensures n == RaiseAll(next, ns)
  {
  }

  // ----- one record -----

  /** Every node that holds the id acted on the request. */
  ghost predicate HoldersAct(ns: seq<Node>, id: nat, outs: nat -> SingleOutcome) {
    forall i :: 0 <= i < |ns| && id in ns[i].store ==> Acts(outs(i))
  }

  ghost predicate HoldersIdle(ns: seq<Node>, id: nat, outs: nat -> SingleOutcome) {
    forall i :: 0 <= i < |ns| && id in ns[i].store ==> !Acts(outs(i))
  }

  /** With disjoint nodes there is only one holder, so one of the two is the case. */
  lemma OneHolderActsOrNot(ns: seq<Node>, id: nat, outs: nat -> SingleOutcome)
    requires PairwiseDisjoint(ns)
    ensures HoldersAct(ns, id, outs) || HoldersIdle(ns, id, outs)
  {
    if !HoldersAct(ns, id, outs) {
      var i :| 0 <= i < |ns| && id in ns[i].store && !Acts(outs(i));
      forall j | 0 <= j < |ns| && id in ns[j].store
        ensures j == i
      {
        OthersDisjoint(ns, i, j);
        assert id in ns[i].store.Keys && id in ns[j].store.Keys;
      }
    }
  }

  lemma DeleteOneShrinks(n: Node, id: nat, o: SingleOutcome)
    requires Keyed(n.store)
    ensures ShrunkNode(n, DeleteOne(n, id, o))
  {
  }

  lemma UpdateOneShrinks(n: Node, rec: Record, o: SingleOutcome)
    requires Keyed(n.store)
    ensures ShrunkNode(n, UpdateOne(n, rec, o)) && UpdateOne(n, rec, o).store.Keys == n.store.Keys
  {
  }

  lemma DeleteOneHas(n: Node, id: nat, o: SingleOutcome, k: nat, r: Record)
    ensures Has(DeleteOne(n, id, o), k, r) ==> Has(n, k, r)
    ensures Has(n, k, r) && (k != id || !Acts(o)) ==> Has(DeleteOne(n, id, o), k, r)
  {
  }

  /** For every outcome of every RPC: the record leaves the union of agreeing nodes exactly when every holder acted,
      and nothing else changes. */
  lemma {:induction false} DeleteRecordRemoves(c: State, id: nat, outs: nat -> SingleOutcome)
    requires AllAgree(c.nodes)
    ensures AllAgree(DeleteRecord(c, id, outs).nodes)
    ensures Contents(DeleteRecord(c, id, outs).nodes) ==
            if HoldersAct(c.nodes, id, outs) then Contents(c.nodes) - {id} else Contents(c.nodes)
  {
    hide Contents;
    var a, b := c.nodes, DeleteRecord(c, id, outs).nodes;
    forall i, j | 0 <= i < |b| && 0 <= j < |b|
      ensures Agree(b[i], b[j])
    {
      assert Agree(a[i], a[j]);
    }
    if HoldersAct(a, id, outs) {
      WithoutContents(a, b, {id});
    } else {
      forall k: nat, r
        ensures Holds(b, k, r) <==> Holds(a, k, r)
      {
        DeleteLeavesHolder(c, id, outs, k, r);
      }
      SameContents(b, a);
    }
  }

  lemma {:induction false} DeleteLeavesHolder(c: State, id: nat, outs: nat -> SingleOutcome, k: nat, r: Record)
    requires AllAgree(c.nodes) && !HoldersAct(c.nodes, id, outs)
    ensures Holds(DeleteRecord(c, id, outs).nodes, k, r) <==> Holds(c.nodes, k, r)
  {
    hide DeleteOne;
    var a, b := c.nodes, DeleteRecord(c, id, outs).nodes;
    var h :| 0 <= h < |a| && id in a[h].store && !Acts(outs(h));
    if Holds(a, k, r) {
      var i :| 0 <= i < |a| && Has(a[i], k, r);
      var j := if k == id then h else i;
      assert Agree(a[i], a[h]);
      assert Has(a[j], k, r);
      DeleteOneHas(a[j], id, outs(j), k, r);
      assert Has(b[j], k, r);
    }
    if Holds(b, k, r) {
      var i :| 0 <= i < |b| && Has(b[i], k, r);
      DeleteOneHas(a[i], id, outs(i), k, r);
      assert Has(a[i], k, r);
    }
  }

  ghost predicate Updated(a: seq<Node>, b: seq<Node>, rec: Record) {
    |a| == |b| && forall i :: 0 <= i < |a| ==> b[i].store == UpdateOne(a[i], rec, Answered).store
  }

  lemma UpdatedHolds(a: seq<Node>, b: seq<Node>, rec: Record, id: nat, r: Record)
    requires Updated(a, b, rec)
    ensures Holds(b, id, r) <==>
            (id != rec.id && Holds(a, id, r)) ||
            (id == rec.id && exists s :: Holds(a, id, s) && r == CopyFields(s, rec))
  {
  }

  ghost function UpdatedMap(m: Store, rec: Record): Store {
    if rec.id in m then m[rec.id := CopyFields(m[rec.id], rec)] else m
  }

  lemma UpdatedAgrees(a: seq<Node>, b: seq<Node>, rec: Record)
    requires Updated(a, b, rec) && AllAgree(a)
    ensures AllAgree(b)
  {
  }

  lemma UpdatedForward(a: seq<Node>, b: seq<Node>, rec: Record, id: nat)
    requires Updated(a, b, rec) && AllAgree(a) && AllAgree(b) && id in Contents(a)
    ensures id in Contents(b)
    ensures Contents(b)[id] == if id == rec.id then CopyFields(Contents(a)[id], rec) else Contents(a)[id]
  {
    var s := Contents(a)[id];
    var r := if id == rec.id then CopyFields(s, rec) else s;
    ContentsHolds(a, id, s);
    assert Holds(a, id, s);
    UpdatedHolds(a, b, rec, id, r);
    ContentsHolds(b, id, r);
  }

  lemma UpdatedBackward(a: seq<Node>, b: seq<Node>, rec: Record, id: nat)
    requires Updated(a, b, rec) && AllAgree(a) && AllAgree(b) && id in Contents(b)
    ensures id in Contents(a)
  {
  }

  lemma MapIsUpdated(m: Store, m': Store, rec: Record)
    requires forall id :: id in m ==> id in m' && m'[id] == if id == rec.id then CopyFields(m[id], rec) else m[id]
    requires forall id :: id in m' ==> id in m
    ensures m' == UpdatedMap(m, rec)
  {
  }

  lemma {:induction false} UpdatedContents(a: seq<Node>, b: seq<Node>, rec: Record)
    requires Updated(a, b, rec) && AllAgree(a)
    ensures Contents(b) == UpdatedMap(Contents(a), rec)
  {
    hide Updated;
    UpdatedAgrees(a, b, rec);
    var m, m' := Contents(a), Contents(b);
    forall id | id in m
      ensures id in m' && m'[id] == if id == rec.id then CopyFields(m[id], rec) else m[id]
    {
      UpdatedForward(a, b, rec, id);
    }
    forall id | id in m'
      ensures id in m
    {
      UpdatedBackward(a, b, rec, id);
    }
    MapIsUpdated(m, m', rec);
  }

  /** For every outcome of every RPC: the union of disjoint nodes is updated exactly when every holder acted. */
  lemma {:induction false} UpdateRecordUpdates(c: State, rec: Record, outs: nat -> SingleOutcome)
    requires PairwiseDisjoint(c.nodes)
    ensures Contents(UpdateRecord(c, rec, outs).nodes) ==
            if HoldersAct(c.nodes, rec.id, outs) then UpdatedMap(Contents(c.nodes), rec) else Contents(c.nodes)
  {
    hide Contents, UpdatedMap;
    var a, b := c.nodes, UpdateRecord(c, rec, outs).nodes;
    DisjointAgree(a);
    if HoldersAct(a, rec.id, outs) {
      assert Updated(a, b, rec);
      UpdatedContents(a, b, rec);
    } else {
      OneHolderActsOrNot(a, rec.id, outs);
      assert a == b;
    }
  }

  lemma UpdateRecordKeepsInv(c: State, rec: Record, outs: nat -> SingleOutcome)
    requires Inv(c)
    ensures Inv(UpdateRecord(c, rec, outs))
  {
    hide UpdateOne, ShrunkNode;
    var ns := UpdateRecord(c, rec, outs).nodes;
    forall i | 0 <= i < |ns|
      ensures ShrunkNode(c.nodes[i], ns[i])
    {
      UpdateOneShrinks(c.nodes[i], rec, outs(i));
    }
    ShrunkKeepsInv(c, UpdateRecord(c, rec, outs));
  }

  lemma DeleteRecordKeepsInv(c: State, id: nat, outs: nat -> SingleOutcome)
    requires Inv(c)
    ensures Inv(DeleteRecord(c, id, outs))
  {
    hide DeleteOne, ShrunkNode;
    var ns := DeleteRecord(c, id, outs).nodes;
    forall i | 0 <= i < |ns|
      ensures ShrunkNode(c.nodes[i], ns[i])
    {
      DeleteOneShrinks(c.nodes[i], id, outs(i));
    }
    ShrunkKeepsInv(c, DeleteRecord(c, id, outs));
  }

  lemma UpdateNodesKeepsInv(c: State, answered: nat -> bool)
    requires Inv(c)
    ensures Inv(UpdateNodes(c, answered))
  {
    var ns := UpdateNodes(c, answered).nodes;
    forall i | 0 <= i < |ns|
      ensures ShrunkNode(c.nodes[i], ns[i])
    {
      assert Keyed(c.nodes[i].store) && ns[i] == Refreshed(c.nodes[i], answered(i));
    }
    ShrunkKeepsInv(c, UpdateNodes(c, answered));
  }
}
