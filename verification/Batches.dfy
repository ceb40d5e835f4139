/** Splitting a batch over the nodes, its fallback and its rollback (CreateRecordsWithId). */
module Batches {
  import opened Wrappers
  import opened Records
  import opened Nodes
  import opened NodeLists
  import opened Balance
  import opened Cluster
  import opened ClusterSteps

  type Outcomes = nat -> CreateOutcome

  /** No create was applied and yet reported as failed. */
  ghost predicate CleanCreates(outs: Outcomes) {
    forall i :: outs(i) != StoredButFailed
  }

  lemma SubIds(recs: seq<Record>, a: nat, b: nat)
    requires a <= b <= |recs|
    ensures Ids(recs[a..b]) <= Ids(recs)
    ensures Ids(recs[..b]) == Ids(recs[..a]) + Ids(recs[a..b])
  {
  }

  /** The records accepted so far are in the cluster, each once, and nothing else changed. */
  ghost predicate Accepted(c: State, recs: seq<Record>, p: Progress) {
    && p.start <= |recs|
    && Inv(p.c)
    && |p.c.nodes| == |c.nodes|
    && AllIds(p.c.nodes) == AllIds(c.nodes) + Ids(recs[..p.start])
    && Contents(p.c.nodes) == Insert(Contents(c.nodes), recs[..p.start])
    && (AllAccurate(c.nodes) ==> AllAccurate(p.c.nodes))
    && Joined(p.placed) == recs[..p.start]
    && (p.last.None? ==> p.c == c && p.start == 0 && p.placed == [])
  }

  lemma RestIsFresh(c: State, recs: seq<Record>, p: Progress, end: nat)
    requires Fresh(c.nodes, recs) && Accepted(c, recs, p) && p.start <= end <= |recs|
    ensures Fresh(p.c.nodes, recs[p.start..end])
  {
  }

  lemma {:induction false} SliceAccepted(c: State, recs: seq<Record>, p: Progress, i: nat, end: nat)
    requires Fresh(c.nodes, recs) && Accepted(c, recs, p) && i < |c.nodes| && p.start <= end <= |recs|
    ensures var slice := recs[p.start..end];
            Accepted(c, recs, Progress(Creator(p.c, i, slice, Stored).0, end, Some(i),
                                       p.placed + [Placement(i, slice)]))
  {
    hide Creator, Inv, Contents, AllIds, AllAccurate, Insert, Ids;
    var slice := recs[p.start..end];
    RestIsFresh(c, recs, p, end);
    CreatorKeepsInv(p.c, i, slice);
    CreatorAdds(p.c, i, slice);
    InsertConcat(Contents(c.nodes), recs[..p.start], slice);
    SubIds(recs, p.start, end);
    assert recs[..p.start] + slice == recs[..end];
    var placed := p.placed + [Placement(i, slice)];
    assert placed[..|placed| - 1] == p.placed;
  }

  lemma {:induction false} NothingAccepted(c: State, recs: seq<Record>)
    requires Inv(c)
    ensures Accepted(c, recs, Progress(c, 0, None, []))
  {
  }

  lemma {:induction false} SpreadAccepts(c: State, recs: seq<Record>, outs: Outcomes, k: nat)
    requires Inv(c) && c.nodes != [] && k <= |c.nodes| && Fresh(c.nodes, recs) && CleanCreates(outs)
    ensures Accepted(c, recs, Spread(c, recs, outs, k))
  {
    hide Creator, Inv, Contents, AllIds, AllAccurate, Ids, Spread, TargetSum, Target;
    SpreadZero(c, recs, outs);
    if k > 0 {
      SpreadAccepts(c, recs, outs, k - 1);
      var p := Spread(c, recs, outs, k - 1);
      var end := TargetSum(|recs|, |c.nodes|, k);
      SpreadNext(c, recs, outs, k - 1, end);
      if outs(k - 1) == Stored {
        SliceAccepted(c, recs, p, k - 1, end);
      } else {
        RestIsFresh(c, recs, p, end);
        CreatorFails(p.c, k - 1, recs[p.start..end], outs(k - 1));
      }
    } else {
      NothingAccepted(c, recs);
    }
  }

  // ----- where the loop stands, whatever the creates did -----

  lemma {:induction false} SpreadJoined(c: State, recs: seq<Record>, outs: Outcomes, k: nat)
    requires c.nodes != [] && k <= |c.nodes|
    ensures var p := Spread(c, recs, outs, k); Joined(p.placed) == recs[..p.start]
  {
    hide Creator, TargetSum, Target, Spread;
    SpreadZero(c, recs, outs);
    if k > 0 {
      SpreadJoined(c, recs, outs, k - 1);
      var p := Spread(c, recs, outs, k - 1);
      var end := TargetSum(|recs|, |c.nodes|, k);
      SpreadNext(c, recs, outs, k - 1, end);
      JoinedOneMore(p.placed, Placement(k - 1, recs[p.start..end]));
      assert recs[..p.start] + recs[p.start..end] == recs[..end];
    }
  }

  lemma {:induction false} JoinedOneMore(ps: seq<Placement>, q: Placement)
    ensures Joined(ps + [q]) == Joined(ps) + q.records
  {
    assert (ps + [q])[..|ps|] == ps;
  }

  /** The last node that accepted, and where the loop stands after it. */
  lemma {:induction false} SpreadLast(c: State, recs: seq<Record>, outs: Outcomes, k: nat)
    requires c.nodes != [] && k <= |c.nodes|
    ensures var p := Spread(c, recs, outs, k);
      && (p.last.None? ==> forall i :: 0 <= i < k ==> outs(i) != Stored)
      && (p.last.Some? ==>
            && outs(p.last.value) == Stored
            && p.start == TargetSum(|recs|, |c.nodes|, p.last.value + 1)
            && forall i :: p.last.value < i < k ==> outs(i) != Stored)
  {
    hide Creator, TargetSum, Target, Spread;
    SpreadZero(c, recs, outs);
    if k > 0 {
      SpreadLast(c, recs, outs, k - 1);
      SpreadNext(c, recs, outs, k - 1, TargetSum(|recs|, |c.nodes|, k));
    }
  }

  lemma {:induction false} SharesMono(total: nat, n: nat, j: nat, k: nat)
    requires n > 0 && j <= k
    ensures TargetSum(total, n, j) <= TargetSum(total, n, k)
  {
    hide Target;
    if j < k {
      SharesMono(total, n, j, k - 1);
    }
  }

  /** Whatever every create did, however the transfers failed and whatever the batch holds: on success the accepted
      slices, in order, are exactly the batch; and the call succeeds exactly when some node accepted and either
      that node's share ends the batch or the fallback accepts the rest. */
  lemma {:induction false} SplitConcatenates(c: State, recs: seq<Record>, outs: Outcomes, fallback: CreateOutcome,
                                             pf: PurgeFaults, faults: Faults)
    requires c.nodes != []
    ensures var (_, ok) := CreateRecordsWithId(c, recs, outs, fallback, pf, faults);
      && (ok ==> Joined(Placements(c, recs, outs)) == recs)
      && (ok <==> exists j :: 0 <= j < |c.nodes| && outs(j) == Stored &&
                    (fallback == Stored || TargetSum(|recs|, |c.nodes|, j + 1) == |recs|))
  {
    hide Creator, Balanced, DeleteRecords, Spread, TargetSum, Target, Joined;
    var n := |c.nodes|;
    var p := Spread(c, recs, outs, n);
    SpreadJoined(c, recs, outs, n);
    SpreadLast(c, recs, outs, n);
    assert recs[..|recs|] == recs && recs[..p.start] + recs[p.start..] == recs;
    if p.last.Some? {
      JoinedOneMore(p.placed, Placement(p.last.value, recs[p.start..]));
      forall j | 0 <= j < n && outs(j) == Stored
        ensures TargetSum(|recs|, n, j + 1) <= p.start
      {
        SharesMono(|recs|, n, j + 1, p.last.value + 1);
      }
    }
  }

  /** A failed create not being applied, success leaves every record of the batch on exactly one node, and if no node
      accepts, nothing has changed. */
  lemma {:induction false} SplitPlacesAll(c: State, recs: seq<Record>, outs: Outcomes, fallback: CreateOutcome,
                                          pf: PurgeFaults, faults: Faults)
    requires Inv(c) && c.nodes != [] && Fresh(c.nodes, recs) && CleanCreates(outs) && CleanFaults(faults)
    ensures var (c', ok) := CreateRecordsWithId(c, recs, outs, fallback, pf, faults);
      && (ok ==> Inv(c') && AllIds(c'.nodes) == AllIds(c.nodes) + Ids(recs))
      && ((forall i :: 0 <= i < |c.nodes| ==> outs(i) != Stored) ==> c' == c)
  {
    hide Creator, Inv, Contents, AllIds, AllAccurate, Insert, Ids, BalanceNodes, Spread, TargetSum;
    var n := |c.nodes|;
    var p := Spread(c, recs, outs, n);
    SpreadAccepts(c, recs, outs, n);
    SpreadLast(c, recs, outs, n);
    assert recs[..|recs|] == recs && recs[p.start..] == recs[p.start..|recs|];
    if p.last.Some? {
      if p.start == |recs| {
        BalancedKeepsAll(p.c, faults);
      } else if fallback == Stored {
        SliceAccepted(c, recs, p, p.last.value, |recs|);
        BalancedKeepsAll(Creator(p.c, p.last.value, recs[p.start..], fallback).0, faults);
      }
    }
  }

  // ----- what a successful batch adds, whatever the creates did -----

  /** `b` holds all that `a` holds, and beside it only records of the batch. */
  ghost predicate GainsFrom(a: Store, b: Store, recs: seq<Record>) {
    && (forall id :: id in a ==> id in b && b[id] == a[id])
    && (forall id :: id in b ==> (id in a && b[id] == a[id]) || (b[id] in recs && b[id].id == id))
  }

  /** Nodes from k on are untouched, the others gained only records of the batch, and its first `start` records
      are held. */
  ghost predicate Gained(before: seq<Node>, ns: seq<Node>, recs: seq<Record>, k: nat, start: nat) {
    && |ns| == |before| && start <= |recs|
    && (forall i :: k <= i < |ns| ==> ns[i].store == before[i].store)
    && (forall i :: 0 <= i < |ns| ==> GainsFrom(before[i].store, ns[i].store, recs))
    && (forall r :: r in recs[..start] ==> Holds(ns, r.id, r))
  }

  /** A create of some of the batch, on a node that has only gained records of the batch. */
  lemma {:induction false} StoreManyGains(a: Store, b: Store, recs: seq<Record>, slice: seq<Record>, o: CreateOutcome)
    requires GainsFrom(a, b, recs) && DistinctIds(recs) && Ids(recs) !! a.Keys
    requires forall r :: r in slice ==> r in recs
    requires o == RolledBack ==> a == b
    ensures GainsFrom(a, StoreMany(b, slice, o), recs) && GainsFrom(b, StoreMany(b, slice, o), recs)
    ensures DistinctIds(slice) && o == Stored ==> forall r :: r in slice ==>
              r.id in StoreMany(b, slice, o) && StoreMany(b, slice, o)[r.id] == r
  {
    var b' := StoreMany(b, slice, o);
    assert Ids(slice) <= Ids(recs);
    InsertKeys(b, slice);
    assert o == RolledBack ==> b' == b;
    if o == Stored || o == StoredButFailed {
      forall id | id in b'
        ensures (id in b && b'[id] == b[id]) || (id !in b && b'[id] in recs && b'[id].id == id)
      {
        InsertLookup(b, slice, id);
        if id in b && id in Ids(slice) {
          SameIdSameRecord(recs, b[id], b'[id]);
        }
      }
    }
    if DistinctIds(slice) && o == Stored {
      forall r | r in slice
        ensures r.id in b' && b'[r.id] == r
      {
        InsertFinds(b, slice, r);
      }
    }
  }

  lemma SameIdSameRecord(recs: seq<Record>, r: Record, q: Record)
    requires DistinctIds(recs) && r in recs && q in recs && r.id == q.id
    ensures r == q
  {
  }

  lemma SliceDistinct(recs: seq<Record>, a: nat, b: nat)
    requires a <= b <= |recs| && DistinctIds(recs)
    ensures DistinctIds(recs[a..b]) && forall r :: r in recs[a..b] ==> r in recs
  {
  }

  lemma GainKeeps(a: Store, b: Store, recs: seq<Record>)
    requires GainsFrom(a, b, recs)
    ensures forall id :: id in a ==> id in b && b[id] == a[id]
  {
  }

  /** One more create, on node i. */
  lemma {:induction false} GainOne(before: seq<Node>, ns: seq<Node>, recs: seq<Record>, k: nat, start: nat, end: nat,
                                   i: nat, o: CreateOutcome, n: Node)
    requires Gained(before, ns, recs, k, start) && Fresh(before, recs) && start <= end <= |recs| && i < |ns|
    requires n.store == StoreMany(ns[i].store, recs[start..end], o) && (o == RolledBack ==> k <= i)
    ensures Gained(before, ns[i := n], recs, if k <= i then i + 1 else k, if o == Stored then end else start)
  {
    hide AllIds, StoreMany, GainsFrom, DistinctIds;
    var slice, ns' := recs[start..end], ns[i := n];
    FreshForNode(before, i, Ids(recs));
    SliceDistinct(recs, start, end);
    StoreManyGains(before[i].store, ns[i].store, recs, slice, o);
    GainKeeps(ns[i].store, n.store, recs);
    forall r | r in recs[..if o == Stored then end else start]
      ensures Holds(ns', r.id, r)
    {
      if r in recs[..start] {
        var j :| 0 <= j < |ns| && Has(ns[j], r.id, r);
        assert Has(ns'[j], r.id, r);
      } else {
        assert r in slice by { assert recs[..end] == recs[..start] + slice; }
        assert Has(ns'[i], r.id, r);
      }
    }
  }

  lemma {:induction false} SpreadGains(c: State, recs: seq<Record>, outs: Outcomes, k: nat)
    requires c.nodes != [] && k <= |c.nodes| && Fresh(c.nodes, recs)
    ensures var p := Spread(c, recs, outs, k); Gained(c.nodes, p.c.nodes, recs, k, p.start)
  {
    hide TargetSum, Target, Spread, Gained, AllIds, Insert, StoreMany;
    SpreadZero(c, recs, outs);
    if k > 0 {
      SpreadGains(c, recs, outs, k - 1);
      var p := Spread(c, recs, outs, k - 1);
      var end := TargetSum(|recs|, |c.nodes|, k);
      SpreadNext(c, recs, outs, k - 1, end);
      var c' := Creator(p.c, k - 1, recs[p.start..end], outs(k - 1)).0;
      GainOne(c.nodes, p.c.nodes, recs, k - 1, p.start, end, k - 1, outs(k - 1), c'.nodes[k - 1]);
    } else {
      NothingGained(c.nodes, recs);
    }
  }

  lemma NothingGained(ns: seq<Node>, recs: seq<Record>)
    ensures Gained(ns, ns, recs, 0, 0)
  {
  }

  lemma {:induction false} GainedHolds(before: seq<Node>, ns: seq<Node>, recs: seq<Record>, k: nat, id: nat, r: Record)
    requires Gained(before, ns, recs, k, |recs|)
    ensures Holds(ns, id, r) <==> Holds(before, id, r) || (r in recs && r.id == id)
  {
    assert recs[..|recs|] == recs;
    if Holds(before, id, r) {
      var i :| 0 <= i < |before| && Has(before[i], id, r);
      assert GainsFrom(before[i].store, ns[i].store, recs);
      assert Has(ns[i], id, r);
    }
    if Holds(ns, id, r) {
      var i :| 0 <= i < |ns| && Has(ns[i], id, r);
      assert GainsFrom(before[i].store, ns[i].store, recs);
      assert Has(before[i], id, r) || (r in recs && r.id == id);
    }
  }

  lemma {:induction false} GainedAgrees(before: seq<Node>, ns: seq<Node>, recs: seq<Record>, k: nat, start: nat)
    requires Gained(before, ns, recs, k, start) && Fresh(before, recs) && AllKeyed(before) && AllAgree(before)
    ensures AllKeyed(ns) && AllAgree(ns)
  {
    hide AllIds;
    forall i | 0 <= i < |ns|
      ensures Keyed(ns[i].store)
    {
      assert GainsFrom(before[i].store, ns[i].store, recs) && Keyed(before[i].store);
    }
    forall i, j | 0 <= i < |ns| && 0 <= j < |ns|
      ensures Agree(ns[i], ns[j])
    {
      assert Agree(before[i], before[j]);
      FreshForNode(before, i, Ids(recs));
      FreshForNode(before, j, Ids(recs));
      GainedAgree(before[i], before[j], ns[i], ns[j], recs);
    }
  }

  lemma GainedAgree(a: Node, b: Node, a': Node, b': Node, recs: seq<Record>)
    requires GainsFrom(a.store, a'.store, recs) && GainsFrom(b.store, b'.store, recs) && Agree(a, b)
    requires DistinctIds(recs) && Ids(recs) !! a.store.Keys && Ids(recs) !! b.store.Keys
    ensures Agree(a', b')
  {
    forall id | id in a'.store && id in b'.store
      ensures a'.store[id] == b'.store[id]
    {
      var r, q := a'.store[id], b'.store[id];
      assert r in recs && r.id == id ==> id in Ids(recs);
      assert q in recs && q.id == id ==> id in Ids(recs);
      if r in recs && q in recs && r.id == id == q.id {
        SameIdSameRecord(recs, r, q);
      }
    }
  }

  lemma {:induction false} GainedContents(before: seq<Node>, ns: seq<Node>, recs: seq<Record>, k: nat)
    requires Gained(before, ns, recs, k, |recs|) && Fresh(before, recs) && AllAgree(before) && AllAgree(ns)
    ensures Contents(ns) == Insert(Contents(before), recs)
  {
    hide Gained, Contents, AllIds, AllAgree, Holds, Fresh;
    var m, m' := Insert(Contents(before), recs), Contents(ns);
    forall id | id in m
      ensures id in m' && m'[id] == m[id]
    {
      InsertLookup(Contents(before), recs, id);
      ContentsHolds(before, id, m[id]);
      GainedHolds(before, ns, recs, k, id, m[id]);
      ContentsHolds(ns, id, m[id]);
    }
    forall id | id in m'
      ensures id in m
    {
      ContentsHolds(ns, id, m'[id]);
      GainedHolds(before, ns, recs, k, id, m'[id]);
      ContentsHolds(before, id, m'[id]);
      InsertKeys(Contents(before), recs);
    }
    SameMap(m', m);
  }

  /** Whatever every create did, also applied and reported as failed, and however the closing balance failed: on
      success the union is the old records plus the batch. */
  lemma {:induction false} SplitAddsBatch(c: State, recs: seq<Record>, outs: Outcomes, fallback: CreateOutcome,
                                          pf: PurgeFaults, faults: Faults)
    requires AllKeyed(c.nodes) && AllAgree(c.nodes) && Fresh(c.nodes, recs)
    ensures var (c', ok) := CreateRecordsWithId(c, recs, outs, fallback, pf, faults);
            ok ==> Contents(c'.nodes) == Insert(Contents(c.nodes), recs) && AllAgree(c'.nodes)
  {
    hide Contents, AllIds, Insert, BalanceNodes, DeleteRecords, Spread, TargetSum, Gained, StoreMany, AllAgree;
    if c.nodes != [] {
      var n := |c.nodes|;
      var p := Spread(c, recs, outs, n);
      SpreadGains(c, recs, outs, n);
      if p.last.Some? {
        if p.start == |recs| {
          GainedAgrees(c.nodes, p.c.nodes, recs, n, |recs|);
          GainedContents(c.nodes, p.c.nodes, recs, n);
          BalanceKeepsRecords(p.c.nodes, faults);
        } else if fallback == Stored {
          assert recs[p.start..] == recs[p.start..|recs|];
          var i := p.last.value;
          var c1 := Creator(p.c, i, recs[p.start..], fallback).0;
          GainOne(c.nodes, p.c.nodes, recs, n, p.start, |recs|, i, fallback, c1.nodes[i]);
          GainedAgrees(c.nodes, c1.nodes, recs, n, |recs|);
          GainedContents(c.nodes, c1.nodes, recs, n);
          BalanceKeepsRecords(c1.nodes, faults);
        }
      }
    }
  }

  // ----- rollback -----

  lemma StoreManyOutside(store: Store, rs: seq<Record>, o: CreateOutcome, ids: set<nat>)
    requires Ids(rs) <= ids
    ensures StoreMany(store, rs, o) - ids == store - ids
  {
    InsertKeys(store, rs);
    var a, b := StoreMany(store, rs, o) - ids, store - ids;
    forall id | id in b
      ensures a[id] == b[id]
    {
      if o == Stored || o == StoredButFailed {
        InsertLookup(store, rs, id);
      }
    }
    assert a.Keys == b.Keys;
    SameMap(a, b);
  }

  /** Node by node, `a` and `b` hold the same records outside `ids`. */
  ghost predicate SameOutside(a: seq<Node>, b: seq<Node>, ids: set<nat>) {
    |a| == |b| && forall i :: 0 <= i < |a| ==> a[i].store - ids == b[i].store - ids
  }

  lemma CreatorOutside(c: State, i: nat, rs: seq<Record>, o: CreateOutcome, ids: set<nat>)
    requires i < |c.nodes| && Ids(rs) <= ids
    ensures SameOutside(Creator(c, i, rs, o).0.nodes, c.nodes, ids)
  {
    StoreManyOutside(c.nodes[i].store, rs, o, ids);
  }

  lemma {:induction false} SpreadOutside(c: State, recs: seq<Record>, outs: Outcomes, k: nat)
    requires c.nodes != [] && k <= |c.nodes|
    ensures SameOutside(Spread(c, recs, outs, k).c.nodes, c.nodes, Ids(recs))
  {
    hide Creator, TargetSum, Target, Spread;
    SpreadZero(c, recs, outs);
    if k > 0 {
      SpreadOutside(c, recs, outs, k - 1);
      var p := Spread(c, recs, outs, k - 1);
      var end := TargetSum(|recs|, |c.nodes|, k);
      SpreadNext(c, recs, outs, k - 1, end);
      SubIds(recs, p.start, end);
      CreatorOutside(p.c, k - 1, recs[p.start..end], outs(k - 1), Ids(recs));
    }
  }

  ghost predicate SameStores(a: seq<Node>, b: seq<Node>) {
    |a| == |b| && forall i :: 0 <= i < |a| ==> a[i].store == b[i].store
  }

  lemma SameStoresSameContents(a: seq<Node>, b: seq<Node>)
    requires SameStores(a, b) && AllAgree(b) && AllKeyed(b)
    ensures AllAgree(a) && AllKeyed(a) && Contents(a) == Contents(b)
  {
    assert AllAgree(a) by {
      forall i, j | 0 <= i < |a| && 0 <= j < |a|
        ensures Agree(a[i], a[j])
      {
        assert Agree(b[i], b[j]);
      }
    }
    forall id, r
      ensures Holds(a, id, r) <==> Holds(b, id, r)
    {
      if Holds(a, id, r) {
        var i :| 0 <= i < |a| && Has(a[i], id, r);
        assert Has(b[i], id, r);
      }
      if Holds(b, id, r) {
        var i :| 0 <= i < |b| && Has(b[i], id, r);
        assert Has(a[i], id, r);
      }
    }
    SameContents(a, b);
  }

  /** Deleting fresh ids everywhere undoes whatever the creates left behind. */
  lemma PurgeRestores(ns: seq<Node>, before: seq<Node>, ids: set<nat>, pf: PurgeFaults)
    requires SameOutside(ns, before, ids) && ids !! AllIds(before)
    requires forall i :: 0 <= i < |ns| ==> pf.deleted(i)
    ensures SameStores(PurgeAll(ns, ids, pf), before)
  {
  }

  lemma IdsOfIds(recs: seq<Record>)
    ensures IdSet(IdsOf(recs)) == Ids(recs)
  {
    forall id
      ensures id in IdSet(IdsOf(recs)) <==> id in Ids(recs)
    {
      if id in Ids(recs) {
        var i :| 0 <= i < |recs| && recs[i].id == id;
        assert IdsOf(recs)[i] == id;
      }
      if id in IdSet(IdsOf(recs)) {
        var i :| 0 <= i < |recs| && IdsOf(recs)[i] == id;
        assert recs[i] in recs;
      }
    }
  }

  /** When some node accepted a slice, the call failed and the cleanup deletes get through, the cluster holds exactly
      the records it held before, whatever every create did and however the balance inside the cleanup failed. */
  lemma {:induction false} RollbackRestores(c: State, recs: seq<Record>, outs: Outcomes, fallback: CreateOutcome,
                                            pf: PurgeFaults, faults: Faults)
    requires AllKeyed(c.nodes) && AllAgree(c.nodes) && Ids(recs) !! AllIds(c.nodes)
    requires exists j :: 0 <= j < |c.nodes| && outs(j) == Stored
    requires forall i :: 0 <= i < |c.nodes| ==> pf.deleted(i)
    ensures var (c', ok) := CreateRecordsWithId(c, recs, outs, fallback, pf, faults);
            !ok ==> Contents(c'.nodes) == Contents(c.nodes)
  {
    hide Creator, BalanceNodes, Contents, AllIds, Insert, Spread, TargetSum, Target;
    var p := Spread(c, recs, outs, |c.nodes|);
    SpreadLast(c, recs, outs, |c.nodes|);
    if p.start < |recs| && fallback != Stored {
      SpreadOutside(c, recs, outs, |c.nodes|);
      assert recs[p.start..] == recs[p.start..|recs|];
      SubIds(recs, p.start, |recs|);
      var c1 := Creator(p.c, p.last.value, recs[p.start..], fallback).0;
      CreatorOutside(p.c, p.last.value, recs[p.start..], fallback, Ids(recs));
      IdsOfIds(recs);
      PurgeRestores(c1.nodes, c.nodes, Ids(recs), pf);
      var ns := PurgeAll(c1.nodes, Ids(recs), pf);
      SameStoresSameContents(ns, c.nodes);
      BalanceKeepsRecords(ns, faults);
    }
  }
}
