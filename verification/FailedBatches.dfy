/** When a failed batch create leaves nothing behind (CreateRecordsWithId). */
module FailedBatches {
  import opened Records
  import opened Nodes
  import opened NodeLists
  import opened Balance
  import opened Cluster
  import opened ClusterSteps
  import opened Batches

  // ----- what every node was offered -----

  /** Where the slice of node k starts: after the share of the last node before it that accepted. */
  function StartAt(total: nat, n: nat, outs: Outcomes, k: nat): (start: nat)
    requires n > 0
    ensures start <= TargetSum(total, n, k)
  {
    if k == 0 then 0
    else if outs(k - 1) == Stored then TargetSum(total, n, k)
    else StartAt(total, n, outs, k - 1)
  }

  ghost function SliceOf(recs: seq<Record>, n: nat, outs: Outcomes, i: nat): seq<Record>
    requires i < n
  {
    SharesGrow(|recs|, n, i + 1);
    SharesMono(|recs|, n, i, i + 1);
    recs[StartAt(|recs|, n, outs, i)..TargetSum(|recs|, n, i + 1)]
  }

  lemma SliceOfIs(recs: seq<Record>, n: nat, outs: Outcomes, i: nat)
    requires i < n
    ensures SliceOf(recs, n, outs, i) != [] <==> StartAt(|recs|, n, outs, i) < TargetSum(|recs|, n, i + 1)
    ensures forall r :: r in SliceOf(recs, n, outs, i) ==> r in recs
  {
    hide StartAt, TargetSum;
    SharesGrow(|recs|, n, i + 1);
    SharesMono(|recs|, n, i, i + 1);
  }

  /** The stores after the first k nodes were offered their slices. */
  ghost predicate Offered(c: State, recs: seq<Record>, outs: Outcomes, ns: seq<Node>, k: nat) {
    && |ns| == |c.nodes|
    && (forall i :: 0 <= i < |ns| && i < k ==>
          ns[i].store == StoreMany(c.nodes[i].store, SliceOf(recs, |ns|, outs, i), outs(i)))
    && (forall i :: k <= i < |ns| ==> ns[i].store == c.nodes[i].store)
  }

  lemma {:induction false} StartNext(total: nat, n: nat, outs: Outcomes, k: nat)
    requires n > 0
    ensures StartAt(total, n, outs, 0) == 0
    ensures StartAt(total, n, outs, k + 1) ==
            if outs(k) == Stored then TargetSum(total, n, k + 1) else StartAt(total, n, outs, k)
  {
  }

  lemma CreatorStore(c: State, i: nat, rs: seq<Record>, o: CreateOutcome)
    requires i < |c.nodes|
    ensures var ns := Creator(c, i, rs, o).0.nodes;
      && ns[i].store == StoreMany(c.nodes[i].store, rs, o)
      && forall j :: 0 <= j < |ns| && j != i ==> ns[j] == c.nodes[j]
  {
    hide StoreMany, MaxId;
  }

  lemma {:induction false} SpreadOffers(c: State, recs: seq<Record>, outs: Outcomes, k: nat)
    requires c.nodes != [] && k <= |c.nodes|
    ensures var p := Spread(c, recs, outs, k);
      && p.start == StartAt(|recs|, |c.nodes|, outs, k)
      && Offered(c, recs, outs, p.c.nodes, k)
  {
    hide Creator, TargetSum, Target, Spread, StoreMany, StartAt;
    SpreadZero(c, recs, outs);
    var n := |c.nodes|;
    StartNext(|recs|, n, outs, 0);
    if k > 0 {
      SpreadOffers(c, recs, outs, k - 1);
      var p, end := Spread(c, recs, outs, k - 1), TargetSum(|recs|, n, k);
      SpreadNext(c, recs, outs, k - 1, end);
      StartNext(|recs|, n, outs, k - 1);
      CreatorStore(p.c, k - 1, recs[p.start..end], outs(k - 1));
    }
  }

  // ----- which nodes hold some of the batch -----

  ghost predicate HoldsSome(store: Store, recs: seq<Record>) {
    !(Ids(recs) !! store.Keys)
  }

  predicate Applied(o: CreateOutcome) {
    o == Stored || o == StoredButFailed
  }

  lemma {:induction false} SliceHeldIff(before: Store, recs: seq<Record>, slice: seq<Record>, o: CreateOutcome)
    requires Ids(recs) !! before.Keys && forall r :: r in slice ==> r in recs
    ensures HoldsSome(StoreMany(before, slice, o), recs) <==> Applied(o) && slice != []
  {
    hide StoreMany;
    StoreManyKeys(before, slice, o);
    if slice != [] {
      assert slice[0] in recs && slice[0].id in Ids(slice) && slice[0].id in Ids(recs);
    } else {
      assert Ids(slice) == {};
    }
  }

  /** The fallback offers the rest to a node that has already accepted a slice. */
  lemma {:induction false} RestHeldIff(before: Store, recs: seq<Record>, a: nat, b: nat, o: CreateOutcome)
    requires Ids(recs) !! before.Keys && DistinctIds(recs) && a <= b < |recs| && o != Stored
    ensures HoldsSome(StoreMany(StoreMany(before, recs[a..b], Stored), recs[b..], o), recs)
            <==> a < b || o == StoredButFailed
  {
    hide StoreMany;
    var slice, rest := recs[a..b], recs[b..];
    var mid := StoreMany(before, slice, Stored);
    StoreManyKeys(before, slice, Stored);
    StoreManyKeys(mid, rest, o);
    assert rest[0] in recs && rest[0].id in Ids(rest) && rest[0].id in Ids(recs);
    if a < b {
      assert slice[0] in recs && slice[0].id in Ids(slice) && slice[0].id in Ids(recs);
      assert slice[0].id !in Ids(rest) by {
        assert forall r :: r in rest ==> exists j :: b <= j < |recs| && recs[j] == r;
        assert slice[0] == recs[a];
      }
    } else {
      assert slice == [] && Ids(slice) == {};
    }
  }

  ghost predicate IsLast(outs: Outcomes, n: nat, i: nat) {
    outs(i) == Stored && forall j :: i < j < n ==> outs(j) != Stored
  }

  /** Node i still holds records of the batch when the creates are done: its slice was not empty and was applied, or
      it was the fallback and applied what it reported as failed. */
  ghost predicate LeavesSome(total: nat, n: nat, outs: Outcomes, fallback: CreateOutcome, i: nat)
    requires n > 0
  {
    || (Applied(outs(i)) && StartAt(total, n, outs, i) < TargetSum(total, n, i + 1))
    || (IsLast(outs, n, i) && fallback == StoredButFailed)
  }

  ghost predicate SomeAccepted(outs: Outcomes, n: nat) {
    exists j :: 0 <= j < n && outs(j) == Stored
  }

  /** Every node left with records of the batch is cleaned: some node accepted, so that the cleanup runs at all, and
      its delete gets through. */
  ghost predicate CleanedUp(total: nat, n: nat, outs: Outcomes, fallback: CreateOutcome, pf: PurgeFaults)
    requires n > 0
  {
    forall i :: 0 <= i < n && LeavesSome(total, n, outs, fallback, i) ==> SomeAccepted(outs, n) && pf.deleted(i)
  }

  lemma {:induction false} OfferedHeldIff(c: State, recs: seq<Record>, outs: Outcomes, ns: seq<Node>, i: nat)
    requires Offered(c, recs, outs, ns, |ns|) && Ids(recs) !! AllIds(c.nodes) && i < |ns|
    ensures HoldsSome(ns[i].store, recs) <==>
            Applied(outs(i)) && StartAt(|recs|, |ns|, outs, i) < TargetSum(|recs|, |ns|, i + 1)
  {
    hide StoreMany, HoldsSome, TargetSum, StartAt, AllIds, SliceOf;
    FreshForNode(c.nodes, i, Ids(recs));
    SliceOfIs(recs, |ns|, outs, i);
    SliceHeldIff(c.nodes[i].store, recs, SliceOf(recs, |ns|, outs, i), outs(i));
  }

  // ----- the union -----

  /** On nodes that have gained nothing but records of the batch, the union is the old one exactly when none of them
      holds any of it. */
  lemma {:induction false} UnionUnchangedIff(before: seq<Node>, ns: seq<Node>, recs: seq<Record>)
    requires Gained(before, ns, recs, |ns|, 0) && Fresh(before, recs) && AllKeyed(before) && AllAgree(before)
    ensures AllKeyed(ns) && AllAgree(ns)
    ensures Contents(ns) == Contents(before) <==> forall i :: 0 <= i < |ns| ==> !HoldsSome(ns[i].store, recs)
  {
    GainedAgrees(before, ns, recs, |ns|, 0);
    hide AllAgree;
    if i :| 0 <= i < |ns| && HoldsSome(ns[i].store, recs) {
      var id :| id in Ids(recs) && id in ns[i].store.Keys;
      assert id in Contents(ns).Keys && id !in Contents(before).Keys;
    } else {
      forall i | 0 <= i < |ns|
        ensures ns[i].store == before[i].store
      {
        GainsNothing(before[i].store, ns[i].store, recs);
      }
      SameStoresSameContents(ns, before);
    }
  }

  lemma GainsNothing(a: Store, b: Store, recs: seq<Record>)
    requires GainsFrom(a, b, recs) && !HoldsSome(b, recs)
    ensures a == b
  {
    forall id | id in b
      ensures id in a
    {
      assert b[id] in recs && b[id].id == id ==> id in Ids(recs);
    }
  }

  lemma GainsLess(a: Store, b: Store, recs: seq<Record>, ids: set<nat>)
    requires GainsFrom(a, b, recs) && ids <= Ids(recs) && Ids(recs) !! a.Keys
    ensures GainsFrom(a, b - ids, recs)
  {
  }

  lemma {:induction false} FallbackGains(before: seq<Node>, ns: seq<Node>, recs: seq<Record>, i: nat, start: nat,
                                         o: CreateOutcome, n: Node)
    requires Gained(before, ns, recs, |ns|, start) && Fresh(before, recs) && i < |ns|
    requires n.store == StoreMany(ns[i].store, recs[start..], o)
    ensures Gained(before, ns[i := n], recs, |ns|, 0)
  {
    hide GainsFrom, AllIds, DistinctIds;
    FreshForNode(before, i, Ids(recs));
    var rest := recs[start..];
    assert rest == recs[start..|recs|];
    SliceDistinct(recs, start, |recs|);
    SubIds(recs, start, |recs|);
    if o == RolledBack {
      GainsLess(before[i].store, ns[i].store, recs, Ids(rest));
    } else {
      StoreManyGains(before[i].store, ns[i].store, recs, rest, o);
    }
  }

  lemma {:induction false} PurgeGains(before: seq<Node>, ns: seq<Node>, recs: seq<Record>, pf: PurgeFaults)
    requires Gained(before, ns, recs, |ns|, 0) && Fresh(before, recs)
    ensures var all := PurgeAll(ns, Ids(recs), pf);
      && Gained(before, all, recs, |ns|, 0)
      && forall i :: 0 <= i < |ns| ==>
           (HoldsSome(all[i].store, recs) <==> HoldsSome(ns[i].store, recs) && !pf.deleted(i))
  {
    hide GainsFrom, AllIds, DistinctIds;
    var all := PurgeAll(ns, Ids(recs), pf);
    forall i | 0 <= i < |ns|
      ensures GainsFrom(before[i].store, all[i].store, recs)
      ensures HoldsSome(all[i].store, recs) <==> HoldsSome(ns[i].store, recs) && !pf.deleted(i)
    {
      FreshForNode(before, i, Ids(recs));
      GainsLess(before[i].store, ns[i].store, recs, Ids(recs));
      assert all[i].store == if pf.deleted(i) then ns[i].store - Ids(recs) else ns[i].store;
    }
  }

  lemma GainedFewer(before: seq<Node>, ns: seq<Node>, recs: seq<Record>, k: nat, start: nat)
    requires Gained(before, ns, recs, k, start) && k <= |ns|
    ensures Gained(before, ns, recs, |ns|, 0)
  {
  }

  // ----- the main result -----

  /** Nobody accepted: the handler gives up without a cleanup. */
  lemma {:induction false} NoneAcceptedIff(c: State, recs: seq<Record>, outs: Outcomes, fallback: CreateOutcome,
                                           pf: PurgeFaults)
    requires AllKeyed(c.nodes) && AllAgree(c.nodes) && Fresh(c.nodes, recs) && c.nodes != []
    requires Spread(c, recs, outs, |c.nodes|).last.None?
    ensures Contents(Spread(c, recs, outs, |c.nodes|).c.nodes) == Contents(c.nodes)
            <==> CleanedUp(|recs|, |c.nodes|, outs, fallback, pf)
  {
    hide Spread, Gained, AllAgree, AllKeyed, Contents, Offered, HoldsSome, StartAt, TargetSum;
    var n := |c.nodes|;
    var p := Spread(c, recs, outs, n);
    SpreadLast(c, recs, outs, n);
    SpreadGains(c, recs, outs, n);
    SpreadOffers(c, recs, outs, n);
    GainedFewer(c.nodes, p.c.nodes, recs, n, p.start);
    UnionUnchangedIff(c.nodes, p.c.nodes, recs);
    forall i | 0 <= i < n
      ensures HoldsSome(p.c.nodes[i].store, recs) <==> LeavesSome(|recs|, n, outs, fallback, i)
    {
      OfferedHeldIff(c, recs, outs, p.c.nodes, i);
    }
  }

  /** What each node holds when the fallback has failed too. */
  lemma {:induction false} FallbackHeldIff(c: State, recs: seq<Record>, outs: Outcomes, fallback: CreateOutcome,
                                           c1: State, i: nat)
    requires Fresh(c.nodes, recs) && i < |c.nodes| && fallback != Stored
    requires var p := Spread(c, recs, outs, |c.nodes|);
             p.last.Some? && p.start < |recs| && c1 == Creator(p.c, p.last.value, recs[p.start..], fallback).0
    ensures HoldsSome(c1.nodes[i].store, recs) <==> LeavesSome(|recs|, |c.nodes|, outs, fallback, i)
  {
    hide Spread, Creator, HoldsSome, StartAt, TargetSum, StoreMany, AllIds, DistinctIds;
    var n := |c.nodes|;
    var p := Spread(c, recs, outs, n);
    var l := p.last.value;
    SpreadLast(c, recs, outs, n);
    SpreadOffers(c, recs, outs, n);
    CreatorStore(p.c, l, recs[p.start..], fallback);
    OfferedHeldIff(c, recs, outs, p.c.nodes, i);
    if i == l {
      FreshForNode(c.nodes, i, Ids(recs));
      SharesMono(|recs|, n, i, i + 1);
      RestHeldIff(c.nodes[i].store, recs, StartAt(|recs|, n, outs, i), p.start, fallback);
    }
  }

  /** Some node accepted, the fallback failed: the cleanup runs. */
  lemma {:induction false} RolledBackIff(c: State, recs: seq<Record>, outs: Outcomes, fallback: CreateOutcome,
                                         pf: PurgeFaults, faults: Faults, c1: State)
    requires AllKeyed(c.nodes) && AllAgree(c.nodes) && Fresh(c.nodes, recs) && c.nodes != [] && fallback != Stored
    requires var p := Spread(c, recs, outs, |c.nodes|);
             p.last.Some? && p.start < |recs| && c1 == Creator(p.c, p.last.value, recs[p.start..], fallback).0
    ensures Contents(DeleteRecords(c1, IdsOf(recs), pf, faults).0.nodes) == Contents(c.nodes)
            <==> CleanedUp(|recs|, |c.nodes|, outs, fallback, pf)
  {
    hide Spread, Creator, Gained, AllAgree, AllKeyed, Contents, HoldsSome, LeavesSome, PurgeAll, BalanceNodes, AllIds;
    var n := |c.nodes|;
    var p := Spread(c, recs, outs, n);
    var l := p.last.value;
    SpreadLast(c, recs, outs, n);
    SpreadGains(c, recs, outs, n);
    CreatorStore(p.c, l, recs[p.start..], fallback);
    FallbackGains(c.nodes, p.c.nodes, recs, l, p.start, fallback, c1.nodes[l]);
    assert c1.nodes == p.c.nodes[l := c1.nodes[l]];
    PurgeGains(c.nodes, c1.nodes, recs, pf);
    IdsOfIds(recs);
    var ns := PurgeAll(c1.nodes, Ids(recs), pf);
    UnionUnchangedIff(c.nodes, ns, recs);
    BalanceKeepsRecords(ns, faults);
    forall i | 0 <= i < n
      ensures HoldsSome(ns[i].store, recs) <==> LeavesSome(|recs|, n, outs, fallback, i) && !pf.deleted(i)
    {
      FallbackHeldIff(c, recs, outs, fallback, c1, i);
    }
  }

  /** Whatever every create did and however the closing balance failed: a call with new ids that fails leaves the union
      as it was exactly when every node left with records of the batch is cleaned. If no node accepted there is no
      cleanup, so a create applied and reported as failed stays. */
  lemma {:induction false} FailedBatchUnionIff(c: State, recs: seq<Record>, outs: Outcomes, fallback: CreateOutcome,
                                               pf: PurgeFaults, faults: Faults)
    requires AllKeyed(c.nodes) && AllAgree(c.nodes) && Fresh(c.nodes, recs) && c.nodes != []
    ensures var (c', ok) := CreateRecordsWithId(c, recs, outs, fallback, pf, faults);
            !ok ==> (Contents(c'.nodes) == Contents(c.nodes)
                     <==> CleanedUp(|recs|, |c.nodes|, outs, fallback, pf))
  {
    hide Spread, Creator, Contents, CleanedUp, DeleteRecords, Balanced, AllAgree, AllKeyed, Fresh;
    var p := Spread(c, recs, outs, |c.nodes|);
    if p.last.None? {
      NoneAcceptedIff(c, recs, outs, fallback, pf);
    } else if p.start < |recs| && fallback != Stored {
      var c1 := Creator(p.c, p.last.value, recs[p.start..], fallback).0;
      RolledBackIff(c, recs, outs, fallback, pf, faults, c1);
    }
  }
}
