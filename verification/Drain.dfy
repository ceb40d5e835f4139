/** Removing a node and handing its records to the survivors (DeleteNode). */
module Drain {
  import opened Records
  import opened Nodes
  import opened NodeLists
  import opened Balance
  import opened Cluster
  import opened ClusterSteps

  lemma DrainInRange(total: nat, n: nat)
    ensures AllInRange(DrainMoves(total, n), n + 1)
  {
  }

  // ----- swap-remove -----

  /** The survivors and the leaving node, in the order the transfers see them, are the nodes there were. */
  lemma SwapRemoveKeepsAll(ns: seq<Node>, i: nat, j: nat)
    requires i < |ns| && j < |ns|
    ensures ns[j] in SwapRemove(ns, i) + [ns[i]]
  {
    var all := SwapRemove(ns, i) + [ns[i]];
    var k := if j == i then |ns| - 1 else if j == |ns| - 1 then i else j;
    assert all[k] == ns[j];
  }

  lemma SwapRemovePicks(ns: seq<Node>, i: nat, j: nat)
    requires i < |ns| && j < |ns|
    ensures var all := SwapRemove(ns, i) + [ns[i]];
            all[j] == ns[if j == |ns| - 1 then i else if j == i then |ns| - 1 else j]
  {
  }

  lemma RearrangedInv(c: State, i: nat)
    requires Inv(c) && i < |c.nodes|
    ensures Inv(c.(nodes := SwapRemove(c.nodes, i) + [c.nodes[i]]))
    ensures AllIds(SwapRemove(c.nodes, i) + [c.nodes[i]]) == AllIds(c.nodes)
    ensures Contents(SwapRemove(c.nodes, i) + [c.nodes[i]]) == Contents(c.nodes)
    ensures AllAccurate(c.nodes) ==> AllAccurate(SwapRemove(c.nodes, i) + [c.nodes[i]])
  {
    var ns, all := c.nodes, SwapRemove(c.nodes, i) + [c.nodes[i]];
    forall j | 0 <= j < |ns|
      ensures Keyed(all[j].store) && NodeBelow(all[j], c.nextId) && all[j].id < c.nextNodeId
      ensures AllAccurate(ns) ==> Accurate(all[j])
    {
      SwapRemovePicks(ns, i, j);
    }
    forall j, k | 0 <= j < k < |ns|
      ensures DisjointNodes(all[j], all[k]) && all[j].id != all[k].id
    {
      SwapRemovePicks(ns, i, j);
      SwapRemovePicks(ns, i, k);
      var a := if j == |ns| - 1 then i else if j == i then |ns| - 1 else j;
      var b := if k == |ns| - 1 then i else if k == i then |ns| - 1 else k;
      OthersDisjoint(ns, a, b);
    }
    SameMembers(ns, all, i);
  }

  lemma SameMembers(ns: seq<Node>, all: seq<Node>, i: nat)
    requires i < |ns| && all == SwapRemove(ns, i) + [ns[i]]
    requires PairwiseDisjoint(ns) && PairwiseDisjoint(all)
    ensures AllIds(all) == AllIds(ns) && Contents(all) == Contents(ns)
  {
    DisjointAgree(ns);
    DisjointAgree(all);
    forall id, r
      ensures Holds(all, id, r) <==> Holds(ns, id, r)
    {
      if Holds(ns, id, r) {
        var j :| 0 <= j < |ns| && Has(ns[j], id, r);
        SwapRemoveKeepsAll(ns, i, j);
        var k :| 0 <= k < |all| && all[k] == ns[j];
        assert Has(all[k], id, r);
      }
      if Holds(all, id, r) {
        var j :| 0 <= j < |all| && Has(all[j], id, r);
        SwapRemovePicks(ns, i, j);
        assert Has(ns[if j == |ns| - 1 then i else if j == i then |ns| - 1 else j], id, r);
      }
    }
    SameContents(all, ns);
    assert AllIds(all) == Contents(all).Keys && AllIds(ns) == Contents(ns).Keys;
  }

  // ----- draining -----

  lemma {:induction false} SharesUsedUp(total: nat, n: nat, k: nat)
    requires n > 0 && k < n
    ensures TargetSum(total, n, k) + Target(total, n, k) <= total
    ensures Target(total, n, k) == 0 ==> TargetSum(total, n, k) == total
  {
    SharesGrow(total, n, k + 1);
    assert TargetSum(total, n, k + 1) == TargetSum(total, n, k) + Target(total, n, k);
    if Target(total, n, k) == 0 {
      TargetSumIs(total, n, k);
      assert total / n == 0;
      assert total % n == total;
    }
  }

  /** Where a faultless drain stands after k survivors have been served. */
  ghost predicate DrainedTo(start: seq<Node>, ns: seq<Node>, total: nat, k: nat)
    requires |start| > 1
  {
    var n := |start| - 1;
    && |ns| == |start| && k <= n
    && ns[n].records == total - TargetSum(total, n, k)
    && (forall i :: 0 <= i < n ==> ns[i].records == start[i].records + (if i < k then Target(total, n, i) else 0))
  }

  lemma {:induction false} ServeOne(start: seq<Node>, ns: seq<Node>, total: nat, k: nat, f: TransferFaults)
    requires |start| > 1 && k < |start| - 1 && DrainedTo(start, ns, total, k) && AllOk(f)
    requires AllKeyed(ns) && PairwiseDisjoint(ns) && AllAccurate(ns)
    ensures var m := Move(|start| - 1, k, Target(total, |start| - 1, k));
      && DrainedTo(start, Step(ns, m, f), total, k + 1)
      && AllKeyed(Step(ns, m, f)) && PairwiseDisjoint(Step(ns, m, f)) && AllAccurate(Step(ns, m, f))
  {
    hide Transfer;
    var n := |start| - 1;
    var m := Move(n, k, Target(total, n, k));
    SharesUsedUp(total, n, k);
    OthersDisjoint(ns, n, k);
    assert Accurate(ns[n]) && Accurate(ns[k]);
    TransferMoves(ns[n], ns[k], m.n, f);
    MovedDisjoint(ns, n, k, m.n, f);
    MovedKeyed(ns, n, k, m.n, f);
    assert TargetSum(total, n, k + 1) == TargetSum(total, n, k) + m.n;
  }

  lemma {:induction false} DrainRuns(start: seq<Node>, ns: seq<Node>, total: nat, k: nat, faults: Faults)
    requires |start| > 1 && k <= |start| - 1 && DrainedTo(start, ns, total, k)
    requires AllKeyed(ns) && PairwiseDisjoint(ns) && AllAccurate(ns)
    requires forall i :: AllOk(faults(i))
    requires AllInRange(DrainMoves(total, |start| - 1)[k..], |ns|)
    ensures var end := RunMoves(ns, DrainMoves(total, |start| - 1)[k..], faults, k);
            DrainedTo(start, end, total, |start| - 1) && AllAccurate(end)
    decreases |start| - k
  {
    hide Step;
    var ms := DrainMoves(total, |start| - 1)[k..];
    if k < |start| - 1 {
      assert AllOk(faults(k));
      ServeOne(start, ns, total, k, faults(k));
      assert ms[1..] == DrainMoves(total, |start| - 1)[k + 1..];
      DrainRuns(start, Step(ns, ms[0], faults(k)), total, k + 1, faults);
    }
  }

  ghost function Share(total: nat, n: nat, i: nat): nat
    requires n > 0
  {
    if total == 0 then 0 else Target(total, n, i)
  }

  lemma {:induction false} DrainEnd(rest: seq<Node>, leaving: Node, faults: Faults)
    requires rest != [] && forall i :: AllOk(faults(i))
    requires AllKeyed(rest + [leaving]) && PairwiseDisjoint(rest + [leaving]) && AllAccurate(rest + [leaving])
    ensures var end := Drained(rest, leaving, faults);
      && AllAccurate(end) && end[|rest|].records == 0
      && (forall j :: 0 <= j < |rest| ==>
            end[j].records == rest[j].records + Share(leaving.records, |rest|, j))
  {
    var start, total := rest + [leaving], leaving.records;
    assert forall j :: 0 <= j < |rest| ==> start[j] == rest[j];
    if total > 0 {
      DrainInRange(total, |rest|);
      assert DrainMoves(total, |rest|)[0..] == DrainMoves(total, |rest|);
      DrainRuns(start, start, total, 0, faults);
      TargetsAddUp(total, |rest|);
    }
  }

  /** With accurate counts and successful RPCs the leaving node ends empty and each survivor gains its share,
      which differs by at most one from any other survivor's, even with fewer records than survivors. */
  lemma {:induction false} DrainEmpties(c: State, id: nat, faults: Faults)
    requires Inv(c) && AllAccurate(c.nodes) && |c.nodes| > 1 && forall i :: AllOk(faults(i))
    requires FindNode(c.nodes, id, 0) < |c.nodes|
    ensures var r := DeleteNode(c, id, faults);
            var i := FindNode(c.nodes, id, 0);
            var rest := SwapRemove(c.nodes, i);
      && r.Removed? && r.leaving.store == map[] && |r.c.nodes| == |rest|
      && AllAccurate(r.c.nodes)
      && (forall j :: 0 <= j < |rest| ==>
            |r.c.nodes[j].store| == |rest[j].store| + Share(|c.nodes[i].store|, |rest|, j))
  {
    var i := FindNode(c.nodes, id, 0);
    var rest, leaving := SwapRemove(c.nodes, i), c.nodes[i];
    RearrangedInv(c, i);
    DrainEnd(rest, leaving, faults);
    var r, end := DeleteNode(c, id, faults), Drained(rest, leaving, faults);
    assert Accurate(leaving) && Accurate(end[|rest|]);
    forall j | 0 <= j < |rest|
      ensures Accurate(r.c.nodes[j])
      ensures |r.c.nodes[j].store| == |rest[j].store| + Share(|leaving.store|, |rest|, j)
    {
      assert Accurate(end[j]) && r.c.nodes[j] == end[j];
      assert Accurate((rest + [leaving])[j]) && (rest + [leaving])[j] == rest[j];
    }
  }

  // ----- nothing is lost -----

  lemma {:induction false} DrainedKeeps(c: State, i: nat, faults: Faults)
    requires Inv(c) && i < |c.nodes|
    ensures var ns := Drained(SwapRemove(c.nodes, i), c.nodes[i], faults);
      && AllKeyed(ns) && AllAgree(ns)
      && Contents(ns) == Contents(c.nodes) && AllIds(ns) == AllIds(c.nodes)
      && Below(ns, c.nextId) && SameNodeIds(ns, SwapRemove(c.nodes, i) + [c.nodes[i]])
      && ((forall k :: CleanTransfer(faults(k))) ==> PairwiseDisjoint(ns))
  {
    var start := SwapRemove(c.nodes, i) + [c.nodes[i]];
    var ms := DrainMoves(c.nodes[i].records, |start| - 1);
    RearrangedInv(c, i);
    DisjointAgree(start);
    if c.nodes[i].records > 0 {
      DrainInRange(c.nodes[i].records, |start| - 1);
      RunLosesNoId(start, ms, faults, 0);
      RunKeepsRecords(start, ms, faults, 0);
      RunStaysBelow(start, ms, faults, 0, c.nextId);
      if forall k :: CleanTransfer(faults(k)) {
        RunKeepsDisjoint(start, ms, faults, 0);
      }
    }
  }

  /** For every pattern of failures the survivors and the leaving node together hold exactly the records there
      were; and with accurate counts and successful RPCs the survivors alone do. */
  lemma {:induction false} DeleteNodeKeepsRecords(c: State, id: nat, faults: Faults)
    requires Inv(c) && FindNode(c.nodes, id, 0) < |c.nodes|
    ensures var r := DeleteNode(c, id, faults);
            r.Removed? && Contents(r.c.nodes + [r.leaving]) == Contents(c.nodes)
    ensures AllAccurate(c.nodes) && |c.nodes| > 1 && (forall i :: AllOk(faults(i))) ==>
            Contents(DeleteNode(c, id, faults).c.nodes) == Contents(c.nodes)
  {
    var i := FindNode(c.nodes, id, 0);
    DrainedKeeps(c, i, faults);
    var r := DeleteNode(c, id, faults);
    var ns := Drained(SwapRemove(c.nodes, i), c.nodes[i], faults);
    assert r.c.nodes + [r.leaving] == ns;
    if AllAccurate(c.nodes) && |c.nodes| > 1 && forall k :: AllOk(faults(k)) {
      DrainEmpties(c, id, faults);
      EmptyLast(r.c.nodes, r.leaving);
    }
  }

  lemma EmptyLast(ns: seq<Node>, n: Node)
    requires AllAgree(ns + [n]) && n.store == map[]
    ensures AllAgree(ns) && Contents(ns) == Contents(ns + [n])
  {
    var all := ns + [n];
    forall i, j | 0 <= i < |ns| && 0 <= j < |ns|
      ensures Agree(ns[i], ns[j])
    {
      assert Agree(all[i], all[j]);
    }
    forall id, r
      ensures Holds(ns, id, r) <==> Holds(all, id, r)
    {
      if Holds(ns, id, r) {
        var i :| 0 <= i < |ns| && Has(ns[i], id, r);
        assert Has(all[i], id, r);
      }
      if Holds(all, id, r) {
        var i :| 0 <= i < |all| && Has(all[i], id, r);
        assert Has(ns[i], id, r);
      }
    }
    SameContents(ns, all);
  }

  lemma {:induction false} DeleteNodeKeepsInv(c: State, id: nat, faults: Faults)
    requires Inv(c) && forall i :: CleanTransfer(faults(i))
    ensures DeleteNode(c, id, faults).Removed? ==> Inv(DeleteNode(c, id, faults).c)
  {
    if c.nodes != [] {
      var i := FindNode(c.nodes, id, 0);
      if i < |c.nodes| {
        DrainedKeeps(c, i, faults);
        RearrangedInv(c, i);
        var ns := Drained(SwapRemove(c.nodes, i), c.nodes[i], faults);
        PrefixInv(c.(nodes := ns), SwapRemove(c.nodes, i) + [c.nodes[i]]);
      }
    }
  }

  lemma PrefixInv(c: State, before: seq<Node>)
    requires c.nodes != [] && AllKeyed(c.nodes) && PairwiseDisjoint(c.nodes) && Below(c.nodes, c.nextId)
    requires SameNodeIds(c.nodes, before) && DistinctNodeIds(c.(nodes := before))
    ensures Inv(c.(nodes := c.nodes[..|c.nodes| - 1]))
  {
  }
}
