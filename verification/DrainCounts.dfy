/** When a drain with failing transfers leaves the survivors' cached counts right (DeleteNode). */
module DrainCounts {
  import opened Records
  import opened Paging
  import opened Nodes
  import opened NodeLists
  import opened Balance
  import opened Cluster
  import opened ClusterSteps
  import opened Drain

  // ----- one transfer -----

  /** Unless a create was applied without the delete, counters keep telling the truth, failures included. */
  lemma TransferStaysAccurate(from: Node, to: Node, n: nat, f: TransferFaults)
    requires Keyed(from.store) && DisjointNodes(from, to) && CleanTransfer(f)
    requires Accurate(from) && Accurate(to) && 0 < n <= from.records
    ensures var (a, b) := Transfer(from, to, n, f); Accurate(a) && Accurate(b)
  {
    hide Page;
    if AllOk(f) {
      TransferMoves(from, to, n, f);
    } else if f.listed && f.create == RolledBack {
      FirstPageIds(from.store, n);
      assert to.store - Ids(Page(from.store, 1, n)) == to.store;
    }
  }

  lemma {:induction false} StepStaysAccurate(ns: seq<Node>, m: Move, f: TransferFaults)
    requires InRange(m, |ns|) && CleanTransfer(f) && 0 < m.n <= ns[m.from].records
    requires AllKeyed(ns) && PairwiseDisjoint(ns) && AllAccurate(ns)
    ensures AllKeyed(Step(ns, m, f)) && PairwiseDisjoint(Step(ns, m, f)) && AllAccurate(Step(ns, m, f))
  {
    hide Transfer;
    OthersDisjoint(ns, m.from, m.to);
    assert Accurate(ns[m.from]) && Accurate(ns[m.to]);
    TransferStaysAccurate(ns[m.from], ns[m.to], m.n, f);
    MovedDisjoint(ns, m.from, m.to, m.n, f);
    MovedKeyed(ns, m.from, m.to, m.n, f);
  }

  /** The create was applied and reported so: the only way a clean transfer changes anything. */
  predicate Effective(f: TransferFaults) {
    f.listed && f.create == Stored
  }

  lemma QuietTransfer(from: Node, to: Node, n: nat, f: TransferFaults)
    requires Keyed(from.store) && DisjointNodes(from, to) && CleanTransfer(f) && !Effective(f)
    ensures Transfer(from, to, n, f) == (from, to)
  {
    hide Page;
    FirstPageIds(from.store, n);
    assert f.create == RolledBack ==> to.store - Ids(Page(from.store, 1, n)) == to.store;
  }

  lemma {:induction false} QuietStep(ns: seq<Node>, m: Move, f: TransferFaults)
    requires InRange(m, |ns|) && CleanTransfer(f) && !Effective(f)
    requires AllKeyed(ns) && PairwiseDisjoint(ns)
    ensures Step(ns, m, f) == ns
  {
    hide Transfer;
    OthersDisjoint(ns, m.from, m.to);
    QuietTransfer(ns[m.from], ns[m.to], m.n, f);
  }

  /** A request for no records moves one, if there is one, past the counters. */
  lemma EmptyRequest(from: Node, to: Node, f: TransferFaults)
    requires Keyed(from.store) && DisjointNodes(from, to) && CleanTransfer(f) && Effective(f)
    requires Accurate(from) && Accurate(to) && from.records > 0
    ensures !Accurate(Transfer(from, to, 0, f).1)
  {
    hide Page;
    var rs := Page(from.store, 1, 0);
    FirstPage(from.store, 0);
    IdsSize(rs);
    InsertSize(to.store, rs);
  }

  // ----- the rest of a drain -----

  lemma {:induction false} DrainNext(ns: seq<Node>, total: nat, n: nat, k: nat, faults: Faults)
    requires k < n && |ns| == n + 1
    ensures DrainFrom(ns, total, n, k, faults) ==
            DrainFrom(Step(ns, Move(n, k, Target(total, n, k)), faults(k)), total, n, k + 1, faults)
  {
    hide Step, Target;
    var ms := DrainMoves(total, n);
    assert ms[k..][0] == Move(n, k, Target(total, n, k));
    assert ms[k..][1..] == ms[k + 1..];
  }

  /** The transfers to survivors k and later, from the node at index n. */
  ghost function DrainFrom(ns: seq<Node>, total: nat, n: nat, k: nat, faults: Faults): (ns': seq<Node>)
    requires k <= n && |ns| == n + 1
    ensures |ns'| == |ns|
  {
    DrainInRange(total, n);
    RunMoves(ns, DrainMoves(total, n)[k..], faults, k)
  }

  ghost predicate Countable(ns: seq<Node>) {
    AllKeyed(ns) && PairwiseDisjoint(ns) && AllAccurate(ns)
  }

  lemma {:induction false} StepDonor(ns: seq<Node>, m: Move, f: TransferFaults)
    requires InRange(m, |ns|) && m.n <= ns[m.from].records
    ensures var r := Step(ns, m, f)[m.from].records;
            r == ns[m.from].records - (if Effective(f) then m.n else 0)
  {
    hide Page;
  }

  lemma {:induction false} StepElsewhere(ns: seq<Node>, m: Move, f: TransferFaults, i: nat)
    requires InRange(m, |ns|) && i < |ns| && i != m.from && i != m.to
    ensures Step(ns, m, f)[i] == ns[i]
  {
    hide Transfer;
  }

  /** Survivors already served are not touched again. */
  lemma {:induction false} ServedStays(ns: seq<Node>, total: nat, n: nat, k: nat, faults: Faults, i: nat)
    requires i < k <= n && |ns| == n + 1
    ensures DrainFrom(ns, total, n, k, faults)[i] == ns[i]
    decreases n - k
  {
    hide Step, Target, DrainFrom;
    if k < n {
      var m := Move(n, k, Target(total, n, k));
      DrainNext(ns, total, n, k, faults);
      StepElsewhere(ns, m, faults(k), i);
      ServedStays(Step(ns, m, faults(k)), total, n, k + 1, faults, i);
    } else {
      NothingLeft(ns, total, n, faults);
    }
  }

  lemma {:induction false} NothingLeft(ns: seq<Node>, total: nat, n: nat, faults: Faults)
    requires |ns| == n + 1
    ensures DrainFrom(ns, total, n, n, faults) == ns
  {
  }

  // ----- at least one record for every survivor -----

  /** Every request is for at least one record and the donor always has as many. */
  lemma {:induction false} WideDrain(ns: seq<Node>, total: nat, n: nat, k: nat, faults: Faults)
    requires 0 < n <= total && k <= n && |ns| == n + 1 && Countable(ns) && CleanFaults(faults)
    requires total <= ns[n].records + TargetSum(total, n, k)
    ensures AllAccurate(DrainFrom(ns, total, n, k, faults))
    decreases n - k
  {
    hide Step, Target, DrainFrom;
    if k < n {
      var m := Move(n, k, Target(total, n, k));
      SharesUsedUp(total, n, k);
      WideShare(total, n, k);
      DrainNext(ns, total, n, k, faults);
      StepStaysAccurate(ns, m, faults(k));
      StepDonor(ns, m, faults(k));
      WideDrain(Step(ns, m, faults(k)), total, n, k + 1, faults);
    } else {
      NothingLeft(ns, total, n, faults);
    }
  }

  lemma WideShare(total: nat, n: nat, k: nat)
    requires 0 < n <= total
    ensures Target(total, n, k) > 0
    ensures TargetSum(total, n, k + 1) == TargetSum(total, n, k) + Target(total, n, k)
  {
    assert total / n >= 1;
  }

  // ----- fewer records than survivors -----

  lemma NarrowShare(total: nat, n: nat, k: nat)
    requires total < n
    ensures Target(total, n, k) == if k < total then 1 else 0
  {
    assert total / n == 0 && total % n == total;
  }

  /** What is left of `total` after k survivors have been served. */
  function Left(total: nat, k: nat): nat { if k < total then total - k else 0 }

  ghost predicate AllEffective(faults: Faults, lo: nat, hi: nat) {
    forall j :: lo <= j < hi ==> Effective(faults(j))
  }

  ghost predicate NoneEffective(faults: Faults, lo: nat, hi: nat) {
    forall j :: lo <= j < hi ==> !Effective(faults(j))
  }

  /** From survivor k on: the donor is on schedule and stays so, or no empty request is carried out. */
  ghost predicate Settles(r: nat, total: nat, n: nat, k: nat, faults: Faults) {
    || (r == Left(total, k) && AllEffective(faults, k, total))
    || NoneEffective(faults, if k < total then total else k, n)
  }

  ghost predicate SurvivorsAccurate(ns: seq<Node>)
    requires ns != []
  {
    AllAccurate(ns[..|ns| - 1])
  }

  /** A request for one record that the donor has. */
  lemma {:induction false} NarrowStep(ns: seq<Node>, total: nat, n: nat, k: nat, faults: Faults)
    requires 0 < total < n && k < total && |ns| == n + 1 && Countable(ns) && CleanFaults(faults)
    requires Left(total, k) <= ns[n].records
    ensures var ns' := Step(ns, Move(n, k, 1), faults(k));
      && Countable(ns') && Left(total, k + 1) <= ns'[n].records
      && (Settles(ns[n].records, total, n, k, faults) <==> Settles(ns'[n].records, total, n, k + 1, faults))
  {
    hide Step;
    var m := Move(n, k, 1);
    StepStaysAccurate(ns, m, faults(k));
    StepDonor(ns, m, faults(k));
  }

  lemma {:induction false} EmptyStep(ns: seq<Node>, n: nat, k: nat, f: TransferFaults)
    requires k < n && |ns| == n + 1 && Countable(ns) && CleanTransfer(f)
    ensures var ns' := Step(ns, Move(n, k, 0), f);
      && (!Effective(f) ==> ns' == ns)
      && (ns[n].records == 0 ==> Countable(ns') && ns'[n].records == 0)
      && (Effective(f) && ns[n].records > 0 ==> !Accurate(ns'[k]))
  {
    hide Transfer;
    var m := Move(n, k, 0);
    OthersDisjoint(ns, n, k);
    assert Accurate(ns[n]) && Accurate(ns[k]);
    if !Effective(f) {
      QuietStep(ns, m, f);
    } else if ns[n].records == 0 {
      TransferMoves(ns[n], ns[k], 0, f);
      MovedDisjoint(ns, n, k, 0, f);
      MovedKeyed(ns, n, k, 0, f);
    } else {
      EmptyRequest(ns[n], ns[k], f);
    }
  }

  lemma {:induction false} NarrowDrain(ns: seq<Node>, total: nat, n: nat, k: nat, faults: Faults)
    requires 0 < total < n && k <= n && |ns| == n + 1 && Countable(ns) && CleanFaults(faults)
    requires Left(total, k) <= ns[n].records
    ensures SurvivorsAccurate(DrainFrom(ns, total, n, k, faults)) <==> Settles(ns[n].records, total, n, k, faults)
    decreases n - k
  {
    hide Step, Target, DrainFrom;
    if k == n {
      NothingLeft(ns, total, n, faults);
    } else {
      NarrowShare(total, n, k);
      DrainNext(ns, total, n, k, faults);
      if k < total {
        NarrowStep(ns, total, n, k, faults);
        NarrowDrain(Step(ns, Move(n, k, 1), faults(k)), total, n, k + 1, faults);
      } else {
        EmptyDrain(ns, total, n, k, faults);
      }
    }
  }

  /** All that is left are empty requests. */
  lemma {:induction false} EmptyDrain(ns: seq<Node>, total: nat, n: nat, k: nat, faults: Faults)
    requires 0 < total <= k < n && |ns| == n + 1 && Countable(ns) && CleanFaults(faults)
    ensures SurvivorsAccurate(DrainFrom(ns, total, n, k, faults)) <==> Settles(ns[n].records, total, n, k, faults)
    decreases n - k, 0
  {
    hide Step, Target, DrainFrom;
    var f, ns' := faults(k), Step(ns, Move(n, k, 0), faults(k));
    NarrowShare(total, n, k);
    DrainNext(ns, total, n, k, faults);
    EmptyStep(ns, n, k, f);
    var end := DrainFrom(ns, total, n, k, faults);
    if Effective(f) && ns[n].records > 0 {
      ServedStays(ns', total, n, k + 1, faults, k);
      assert end[..n][k] == ns'[k];
    } else {
      NarrowDrain(ns', total, n, k + 1, faults);
    }
  }

  // ----- the handler -----

  /** What a caller can tell from the leaving node's count, the number of survivors and the RPC outcomes. */
  ghost predicate DrainAccurate(total: nat, n: nat, faults: Faults) {
    || total == 0
    || n <= total
    || AllEffective(faults, 0, total)
    || NoneEffective(faults, total, n)
  }

  lemma {:induction false} DrainedAccurateIff(rest: seq<Node>, leaving: Node, faults: Faults)
    requires Countable(rest + [leaving]) && CleanFaults(faults)
    ensures AllAccurate(Drained(rest, leaving, faults)[..|rest|])
            <==> DrainAccurate(leaving.records, |rest|, faults)
  {
    hide RunMoves, DrainMoves;
    var ns, total, n := rest + [leaving], leaving.records, |rest|;
    if total > 0 {
      DrainInRange(total, n);
      assert DrainMoves(total, n)[0..] == DrainMoves(total, n);
      if 0 < n <= total {
        WideDrain(ns, total, n, 0, faults);
      } else if 0 < n {
        NarrowDrain(ns, total, n, 0, faults);
      }
    }
  }

  /** The handler's search finds the node and its drain keeps the survivors' counts, or there is no such node. */
  ghost predicate LeavesAccurately(c: State, id: nat, faults: Faults) {
    c.nodes == [] ||
    (var i := FindNode(c.nodes, id, 0);
     i == |c.nodes| || DrainAccurate(|c.nodes[i].store|, |c.nodes| - 1, faults))
  }

  /** Whatever transfers fail, as long as failed ones are not applied, the survivors' counts stay right exactly when
      the leaving node had no record, or at least one for each survivor, or lost none of the transfers that
      moved one, or no transfer of nothing was carried out. */
  lemma {:induction false} LeaveAccurateIff(c: State, id: nat, faults: Faults)
    requires Inv(c) && AllAccurate(c.nodes) && CleanFaults(faults)
    requires FindNode(c.nodes, id, 0) < |c.nodes|
    ensures var r := DeleteNode(c, id, faults);
            r.Removed? && (AllAccurate(r.c.nodes) <==> LeavesAccurately(c, id, faults))
  {
    hide Drained, SwapRemove;
    var i := FindNode(c.nodes, id, 0);
    RearrangedInv(c, i);
    assert Accurate(c.nodes[i]);
    DrainedAccurateIff(SwapRemove(c.nodes, i), c.nodes[i], faults);
  }

  /** The smallest failing case: one record, two survivors, and only the transfer that should move it fails. */
  lemma {:induction false} FailedDrainBreaksCounts(c: State, id: nat, faults: Faults)
    requires Inv(c) && AllAccurate(c.nodes) && |c.nodes| == 3 && FindNode(c.nodes, id, 0) < 3
    requires |c.nodes[FindNode(c.nodes, id, 0)].store| == 1
    requires !faults(0).listed && AllOk(faults(1)) && CleanFaults(faults)
    ensures !AllAccurate(DeleteNode(c, id, faults).c.nodes)
  {
    assert !Effective(faults(0)) && Effective(faults(1));
    LeaveAccurateIff(c, id, faults);
  }

  // ----- what stays on the leaving node -----

  /** How many of the transfers lo, ..., hi - 1 were carried out. */
  function EffectiveCount(faults: Faults, lo: nat, hi: nat): nat
    decreases hi - lo
  {
    if lo >= hi then 0 else (if Effective(faults(lo)) then 1 else 0) + EffectiveCount(faults, lo + 1, hi)
  }

  /** A transfer that is carried out takes as many records as asked for, at least one, as far as there are any. */
  lemma {:induction false} StepTakes(ns: seq<Node>, m: Move, f: TransferFaults)
    requires InRange(m, |ns|) && AllKeyed(ns) && CleanTransfer(f)
    ensures AllKeyed(Step(ns, m, f))
    ensures var s := ns[m.from].store;
            |Step(ns, m, f)[m.from].store| == |s| - if Effective(f) then Smaller(AtLeastOne(m.n), |s|) else 0
  {
    hide Page;
    MovedKeyed(ns, m.from, m.to, m.n, f);
    var s := ns[m.from].store;
    FirstPage(s, m.n);
    IdsSize(Page(s, 1, m.n));
    RemoveSize(s, Ids(Page(s, 1, m.n)));
  }

  lemma {:induction false} WideLeft(ns: seq<Node>, total: nat, n: nat, k: nat, faults: Faults)
    requires 0 < n <= total && k <= n && |ns| == n + 1 && AllKeyed(ns) && CleanFaults(faults)
    requires total <= |ns[n].store| + TargetSum(total, n, k)
    ensures |DrainFrom(ns, total, n, k, faults)[n].store| == 0 <==>
            total == |ns[n].store| + TargetSum(total, n, k) && AllEffective(faults, k, n)
    decreases n - k
  {
    hide Step, Target, DrainFrom;
    if k < n {
      var m := Move(n, k, Target(total, n, k));
      SharesUsedUp(total, n, k);
      WideShare(total, n, k);
      DrainNext(ns, total, n, k, faults);
      StepTakes(ns, m, faults(k));
      WideLeft(Step(ns, m, faults(k)), total, n, k + 1, faults);
    } else {
      NothingLeft(ns, total, n, faults);
      TargetsAddUp(total, n);
    }
  }

  lemma {:induction false} NarrowLeft(ns: seq<Node>, total: nat, n: nat, k: nat, faults: Faults)
    requires total < n && k <= n && |ns| == n + 1 && AllKeyed(ns) && CleanFaults(faults)
    ensures |DrainFrom(ns, total, n, k, faults)[n].store| ==
            |ns[n].store| - Smaller(|ns[n].store|, EffectiveCount(faults, k, n))
    decreases n - k
  {
    hide Step, Target, DrainFrom;
    if k < n {
      var m := Move(n, k, Target(total, n, k));
      NarrowShare(total, n, k);
      DrainNext(ns, total, n, k, faults);
      StepTakes(ns, m, faults(k));
      NarrowLeft(Step(ns, m, faults(k)), total, n, k + 1, faults);
    } else {
      NothingLeft(ns, total, n, faults);
    }
  }

  /** The leaving node had nothing, or some survivor is there and: with a record or more for each every transfer was
      carried out, with fewer as many transfers as there were records. */
  ghost predicate DrainComplete(total: nat, n: nat, faults: Faults) {
    || total == 0
    || (0 < n <= total && AllEffective(faults, 0, n))
    || (total < n && total <= EffectiveCount(faults, 0, n))
  }

  /** Whatever transfers fail, as long as failed ones are not applied: exactly when the leaving node ends empty. */
  lemma {:induction false} LeaverEmptyIff(rest: seq<Node>, leaving: Node, faults: Faults)
    requires AllKeyed(rest + [leaving]) && Accurate(leaving) && CleanFaults(faults)
    ensures Drained(rest, leaving, faults)[|rest|].store == map[]
            <==> DrainComplete(leaving.records, |rest|, faults)
  {
    hide RunMoves, DrainMoves;
    var ns, total, n := rest + [leaving], leaving.records, |rest|;
    if total > 0 {
      DrainInRange(total, n);
      assert DrainMoves(total, n)[0..] == DrainMoves(total, n);
      if 0 < n <= total {
        WideLeft(ns, total, n, 0, faults);
      } else if 0 < n {
        NarrowLeft(ns, total, n, 0, faults);
      } else {
        NothingLeft(ns, total, n, faults);
      }
    }
  }
}
