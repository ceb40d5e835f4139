/** Levelling the load: targets, signed deltas and the greedy matching of master/balancer.go. */
module Balance {
  import opened Records
  import opened Paging
  import opened Nodes
  import opened NodeLists

  // ----- sums -----

  function Sum(d: seq<int>): int {
    if d == [] then 0 else Sum(d[..|d| - 1]) + d[|d| - 1]
  }

  /** How many entries are not zero. */
  function Unsettled(d: seq<int>): nat {
    if d == [] then 0 else Unsettled(d[..|d| - 1]) + (if d[|d| - 1] == 0 then 0 else 1)
  }

  lemma {:induction false} UpdateSum(d: seq<int>, i: nat, v: int)
    requires i < |d|
    ensures Sum(d[i := v]) == Sum(d) - d[i] + v
  {
    var init := d[..|d| - 1];
    if i < |d| - 1 {
      UpdateSum(init, i, v);
      assert d[i := v][..|d| - 1] == init[i := v];
    } else {
      assert d[i := v][..|d| - 1] == init;
    }
  }

  lemma {:induction false} UpdateUnsettled(d: seq<int>, i: nat, v: int)
    requires i < |d|
    ensures Unsettled(d[i := v]) == Unsettled(d) - (if d[i] == 0 then 0 else 1) + (if v == 0 then 0 else 1)
  {
    var init := d[..|d| - 1];
    if i < |d| - 1 {
      UpdateUnsettled(init, i, v);
      assert d[i := v][..|d| - 1] == init[i := v];
    } else {
      assert d[i := v][..|d| - 1] == init;
    }
  }

  ghost predicate AllZero(d: seq<int>) {
    forall i :: 0 <= i < |d| ==> d[i] == 0
  }

  lemma {:induction false} NonPositive(d: seq<int>)
    requires forall i :: 0 <= i < |d| ==> d[i] <= 0
    ensures Sum(d) <= 0
    ensures Sum(d) == 0 ==> AllZero(d)
  {
    if d != [] {
      var init := d[..|d| - 1];
      NonPositive(init);
      assert AllZero(init) && d[|d| - 1] == 0 ==> AllZero(d) by {
        assert forall i :: 0 <= i < |init| ==> d[i] == init[i];
      }
    }
  }

  lemma {:induction false} NonNegative(d: seq<int>, k: nat)
    requires forall i :: 0 <= i < |d| ==> d[i] >= 0
    ensures Sum(d) >= 0
    ensures k < |d| ==> Sum(d) >= d[k]
  {
    if d != [] {
      NonNegative(d[..|d| - 1], k);
    }
  }

  lemma {:induction false} TwoUnsettled(d: seq<int>, i: nat, j: nat)
    requires i < |d| && j < |d| && i != j && d[i] != 0 && d[j] != 0
    ensures Unsettled(d) >= 2
  {
    UpdateUnsettled(d, i, 0);
    UpdateUnsettled(d[i := 0], j, 0);
  }

  // ----- targets and deltas -----

  function Total(ns: seq<Node>): nat {
    if ns == [] then 0 else Total(ns[..|ns| - 1]) + ns[|ns| - 1].records
  }

  /** The i-th of n targets: an even share, the first `total % n` nodes taking one more. */
  function Target(total: nat, n: nat, i: nat): nat
    requires n > 0
  {
    total / n + (if i < total % n then 1 else 0)
  }

  function Deltas(ns: seq<Node>): (d: seq<int>)
    ensures |d| == |ns|
  {
    seq(|ns|, i requires 0 <= i < |ns| => Target(Total(ns), |ns|, i) - ns[i].records)
  }

  function TargetSum(total: nat, n: nat, k: nat): nat
    requires n > 0
  {
    if k == 0 then 0 else TargetSum(total, n, k - 1) + Target(total, n, k - 1)
  }

  lemma {:induction false} TargetSumIs(total: nat, n: nat, k: nat)
    requires n > 0
    ensures TargetSum(total, n, k) == k * (total / n) + (if k < total % n then k else total % n)
  {
    if k > 0 {
      TargetSumIs(total, n, k - 1);
      assert k * (total / n) == (k - 1) * (total / n) + total / n;
    }
  }

  /** The targets add up to the total. */
  lemma TargetsAddUp(total: nat, n: nat)
    requires n > 0
    ensures TargetSum(total, n, n) == total
  {
    TargetSumIs(total, n, n);
  }

  /** Any two targets differ by at most one. */
  lemma TargetsLevel(total: nat, n: nat, i: nat, j: nat)
    requires n > 0
    ensures Target(total, n, i) <= Target(total, n, j) + 1
  {
  }

  lemma {:induction false} DeltaPrefix(ns: seq<Node>, k: nat)
    requires k <= |ns|
    ensures k > 0 ==> Sum(Deltas(ns)[..k]) == TargetSum(Total(ns), |ns|, k) - Total(ns[..k])
    ensures k == 0 ==> Sum(Deltas(ns)[..k]) == 0
  {
    if k > 0 {
      DeltaPrefix(ns, k - 1);
      assert Deltas(ns)[..k][..k - 1] == Deltas(ns)[..k - 1];
      assert ns[..k][..k - 1] == ns[..k - 1];
    }
  }

  lemma DeltasSumToZero(ns: seq<Node>)
    ensures Sum(Deltas(ns)) == 0
  {
    DeltaPrefix(ns, |ns|);
    assert Deltas(ns)[..|ns|] == Deltas(ns) && ns[..|ns|] == ns;
    if ns != [] {
      TargetsAddUp(Total(ns), |ns|);
    }
  }

  /** Some node is more than 5% of the even share below its target. */
  ghost predicate Triggered(ns: seq<Node>) {
    Total(ns) > 0 && exists i :: 0 <= i < |ns| && Deltas(ns)[i] > Total(ns) / |ns| / 20
  }

  // ----- the greedy matching -----

  datatype Move = Move(from: nat, to: nat, n: nat)

  /** The moves the two nested loops make from receiver `i` and donor `j` on; both loops see the updated deltas. */
  function Greedy(d: seq<int>, i: nat, j: nat): seq<Move>
    requires i <= |d| && j <= |d|
    decreases |d| - i, |d| - j
  {
    if i == |d| then []
    else if d[i] <= 0 || j == |d| then Greedy(d, i + 1, 0)
    else if d[j] >= 0 then Greedy(d, i, j + 1)
    else
      var n := if -d[j] > d[i] then d[i] else -d[j];
      [Move(j, i, n)] + Greedy(Shift(d, Move(j, i, n)), i, j + 1)
  }

  predicate InRange(m: Move, n: nat) {
    m.from < n && m.to < n && m.from != m.to
  }

  function Shift(d: seq<int>, m: Move): (d': seq<int>)
    requires InRange(m, |d|)
    ensures |d'| == |d|
  {
    d[m.to := d[m.to] - m.n][m.from := d[m.from] + m.n]
  }

  /** Each move takes no more than its donor must give and its receiver still needs. */
  ghost predicate Feasible(d: seq<int>, ms: seq<Move>)
    decreases |ms|
  {
    ms == [] ||
    (&& InRange(ms[0], |d|)
     && 0 < ms[0].n <= d[ms[0].to]
     && d[ms[0].from] + ms[0].n <= 0
     && Feasible(Shift(d, ms[0]), ms[1..]))
  }

  ghost function After(d: seq<int>, ms: seq<Move>): seq<int>
    requires Feasible(d, ms)
    decreases |ms|
  {
    if ms == [] then d else After(Shift(d, ms[0]), ms[1..])
  }

  lemma {:induction false} ShiftSum(d: seq<int>, m: Move)
    requires InRange(m, |d|)
    ensures Sum(Shift(d, m)) == Sum(d)
  {
    UpdateSum(d, m.to, d[m.to] - m.n);
    UpdateSum(d[m.to := d[m.to] - m.n], m.from, d[m.from] + m.n);
  }

  lemma {:induction false} ShiftSettles(d: seq<int>, m: Move)
    requires InRange(m, |d|) && d[m.to] != 0 && d[m.from] != 0
    requires m.n == d[m.to] || m.n == -d[m.from]
    ensures Unsettled(Shift(d, m)) < Unsettled(d)
  {
    UpdateUnsettled(d, m.to, d[m.to] - m.n);
    UpdateUnsettled(d[m.to := d[m.to] - m.n], m.from, d[m.from] + m.n);
  }

  /** One feasible move in front of the others. */
  lemma {:induction false} MoveFirst(d: seq<int>, m: Move, ms: seq<Move>)
    requires InRange(m, |d|) && 0 < m.n <= d[m.to] && d[m.from] + m.n <= 0 && Feasible(Shift(d, m), ms)
    ensures Feasible(d, [m] + ms) && After(d, [m] + ms) == After(Shift(d, m), ms)
  {
    assert ([m] + ms)[0] == m && ([m] + ms)[1..] == ms;
  }

  lemma {:induction false} GreedyMoves(d: seq<int>, i: nat, j: nat, m: Move)
    requires i < |d| && j < |d| && d[j] < 0 < d[i] && m == Move(j, i, if -d[j] > d[i] then d[i] else -d[j])
    ensures Greedy(d, i, j) == [m] + Greedy(Shift(d, m), i, j + 1)
  {
    hide Shift;
  }

  /** From any point of the nested loops the remaining moves are feasible, leave every delta zero and number
      fewer than the deltas still unsettled. */
  lemma {:induction false} GreedySettles(d: seq<int>, i: nat, j: nat)
    requires i <= |d| && j <= |d| && Sum(d) == 0
    requires forall k :: 0 <= k < i ==> d[k] <= 0
    requires i < |d| && d[i] > 0 ==> forall k :: 0 <= k < j ==> d[k] >= 0
    ensures Feasible(d, Greedy(d, i, j))
    ensures AllZero(After(d, Greedy(d, i, j)))
    ensures |Greedy(d, i, j)| <= (if Unsettled(d) == 0 then 0 else Unsettled(d) - 1)
    decreases |d| - i, |d| - j, 1
  {
    hide Unsettled, Sum;
    if i == |d| {
      NonPositive(d);
    } else if d[i] <= 0 {
      GreedySettles(d, i + 1, 0);
    } else if j == |d| {
      NonNegative(d, i);
      assert false;
    } else if d[j] >= 0 {
      GreedySettles(d, i, j + 1);
    } else {
      var m := Move(j, i, if -d[j] > d[i] then d[i] else -d[j]);
      SettleOne(d, i, j, m);
    }
  }

  /** The step in which donor j gives to receiver i. */
  lemma {:induction false} SettleOne(d: seq<int>, i: nat, j: nat, m: Move)
    requires i < |d| && j < |d| && Sum(d) == 0 && d[j] < 0 < d[i]
    requires m == Move(j, i, if -d[j] > d[i] then d[i] else -d[j])
    requires forall k :: 0 <= k < i ==> d[k] <= 0
    requires forall k :: 0 <= k < j ==> d[k] >= 0
    ensures Feasible(d, Greedy(d, i, j))
    ensures AllZero(After(d, Greedy(d, i, j)))
    ensures |Greedy(d, i, j)| <= (if Unsettled(d) == 0 then 0 else Unsettled(d) - 1)
    decreases |d| - i, |d| - j, 0
  {
    hide Greedy, Feasible, After, Unsettled, Sum;
    TwoUnsettled(d, i, j);
    ShiftSum(d, m);
    ShiftSettles(d, m);
    GreedySettles(Shift(d, m), i, j + 1);
    GreedyMoves(d, i, j, m);
    MoveFirst(d, m, Greedy(Shift(d, m), i, j + 1));
  }

  lemma {:induction false} GreedyInRange(d: seq<int>, i: nat, j: nat)
    requires i <= |d| && j <= |d|
    ensures AllInRange(Greedy(d, i, j), |d|)
    decreases |d| - i, |d| - j
  {
    if i == |d| {
    } else if d[i] <= 0 || j == |d| {
      GreedyInRange(d, i + 1, 0);
    } else if d[j] >= 0 {
      GreedyInRange(d, i, j + 1);
    } else {
      GreedyInRange(Shift(d, Move(j, i, if -d[j] > d[i] then d[i] else -d[j])), i, j + 1);
    }
  }

  function Plan(ns: seq<Node>): seq<Move> {
    Greedy(Deltas(ns), 0, 0)
  }

  lemma {:induction false} UnsettledBound(d: seq<int>)
    ensures Unsettled(d) <= |d|
  {
    if d != [] { UnsettledBound(d[..|d| - 1]); }
  }

  /** The plan settles every delta, so no node is left with one, in at most one transfer fewer than nodes. */
  lemma PlanSettles(ns: seq<Node>)
    ensures Feasible(Deltas(ns), Plan(ns))
    ensures AllZero(After(Deltas(ns), Plan(ns)))
    ensures |Plan(ns)| <= (if ns == [] then 0 else |ns| - 1)
  {
    DeltasSumToZero(ns);
    UnsettledBound(Deltas(ns));
    GreedySettles(Deltas(ns), 0, 0);
  }

  // ----- carrying the plan out -----

  type Faults = nat -> TransferFaults

  ghost predicate AllInRange(ms: seq<Move>, n: nat) {
    forall i :: 0 <= i < |ms| ==> InRange(ms[i], n)
  }

  lemma {:induction false} FeasibleInRange(d: seq<int>, ms: seq<Move>)
    requires Feasible(d, ms)
    ensures AllInRange(ms, |d|)
    decreases |ms|
  {
    if ms != [] {
      FeasibleInRange(Shift(d, ms[0]), ms[1..]);
      assert forall i :: 0 < i < |ms| ==> ms[i] == ms[1..][i - 1];
    }
  }

  function Step(ns: seq<Node>, m: Move, f: TransferFaults): (ns': seq<Node>)
    requires InRange(m, |ns|)
    ensures |ns'| == |ns|
  {
    Moved(ns, m.from, m.to, m.n, f)
  }

  /** The moves carried out in order, the k-th with the k-th fault pattern. */
  ghost function RunMoves(ns: seq<Node>, ms: seq<Move>, faults: Faults, k: nat): (ns': seq<Node>)
    requires AllInRange(ms, |ns|)
    ensures |ns'| == |ns|
    decreases |ms|
  {
    if ms == [] then ns else RunMoves(Step(ns, ms[0], faults(k)), ms[1..], faults, k + 1)
  }

  /** Service.balance. */
  ghost function BalanceNodes(ns: seq<Node>, faults: Faults): (ns': seq<Node>)
    ensures |ns'| == |ns|
  {
    PlanSettles(ns);
    FeasibleInRange(Deltas(ns), Plan(ns));
    if Triggered(ns) then RunMoves(ns, Plan(ns), faults, 0) else ns
  }

  lemma {:induction false} RunLosesNoId(ns: seq<Node>, ms: seq<Move>, faults: Faults, k: nat)
    requires AllInRange(ms, |ns|) && AllKeyed(ns)
    ensures AllIds(RunMoves(ns, ms, faults, k)) == AllIds(ns) && AllKeyed(RunMoves(ns, ms, faults, k))
    decreases |ms|
  {
    hide Transfer;
    if ms != [] {
      var m := ms[0];
      MovedLosesNoId(ns, m.from, m.to, m.n, faults(k));
      MovedKeyed(ns, m.from, m.to, m.n, faults(k));
      RunLosesNoId(Step(ns, m, faults(k)), ms[1..], faults, k + 1);
    }
  }

  lemma {:induction false} RunKeepsRecords(ns: seq<Node>, ms: seq<Move>, faults: Faults, k: nat)
    requires AllInRange(ms, |ns|) && AllKeyed(ns) && AllAgree(ns)
    ensures AllAgree(RunMoves(ns, ms, faults, k)) && Contents(RunMoves(ns, ms, faults, k)) == Contents(ns)
    decreases |ms|
  {
    hide Transfer;
    if ms != [] {
      var m := ms[0];
      var ns1 := Step(ns, m, faults(k));
      MovedAgrees(ns, m.from, m.to, m.n, faults(k));
      MovedKeyed(ns, m.from, m.to, m.n, faults(k));
      SameContents(ns1, ns);
      RunKeepsRecords(ns1, ms[1..], faults, k + 1);
    }
  }

  lemma {:induction false} RunKeepsDisjoint(ns: seq<Node>, ms: seq<Move>, faults: Faults, k: nat)
    requires AllInRange(ms, |ns|) && AllKeyed(ns) && PairwiseDisjoint(ns)
    requires forall i :: CleanTransfer(faults(i))
    ensures PairwiseDisjoint(RunMoves(ns, ms, faults, k))
    decreases |ms|
  {
    hide Transfer;
    if ms != [] {
      var m := ms[0];
      MovedDisjoint(ns, m.from, m.to, m.n, faults(k));
      MovedKeyed(ns, m.from, m.to, m.n, faults(k));
      RunKeepsDisjoint(Step(ns, m, faults(k)), ms[1..], faults, k + 1);
    }
  }

  /** Every stored id is below `bound`, and no next id reported or cached is above it. */
  ghost predicate NodeBelow(n: Node, bound: nat) {
    && (forall id :: id in n.store ==> id < bound)
    && n.storeNext <= bound
    && n.nextRecordId <= bound
  }

  ghost predicate Below(ns: seq<Node>, bound: nat) {
    forall i :: 0 <= i < |ns| ==> NodeBelow(ns[i], bound)
  }

  ghost predicate SameNodeIds(a: seq<Node>, b: seq<Node>) {
    |a| == |b| && forall i :: 0 <= i < |a| ==> a[i].id == b[i].id && a[i].storeNext == b[i].storeNext
  }

  lemma TransferBelow(from: Node, to: Node, n: nat, f: TransferFaults, bound: nat)
    requires Keyed(from.store) && NodeBelow(from, bound) && NodeBelow(to, bound)
    ensures var (a, b) := Transfer(from, to, n, f); NodeBelow(a, bound) && NodeBelow(b, bound)
  {
    hide Page;
    FirstPage(from.store, n);
    TransferIds(from, to, n, f);
    var (a, b) := Transfer(from, to, n, f);
    assert forall id :: id in b.store ==> id in b.store.Keys;
    assert forall id :: id in a.store ==> id in a.store.Keys;
  }

  lemma {:induction false} RunStaysBelow(ns: seq<Node>, ms: seq<Move>, faults: Faults, k: nat, bound: nat)
    requires AllInRange(ms, |ns|) && AllKeyed(ns) && Below(ns, bound)
    ensures Below(RunMoves(ns, ms, faults, k), bound)
    ensures SameNodeIds(RunMoves(ns, ms, faults, k), ns)
    decreases |ms|
  {
    if ms != [] {
      var m := ms[0];
      TransferBelow(ns[m.from], ns[m.to], m.n, faults(k), bound);
      MovedKeyed(ns, m.from, m.to, m.n, faults(k));
      RunStaysBelow(Step(ns, m, faults(k)), ms[1..], faults, k + 1, bound);
    }
  }

  // ----- counters -----

  /** At every move the donor's counter covers the move and its own target, so it never wraps below it. */
  ghost predicate DonorsStayAbove(ns: seq<Node>, floors: seq<nat>, ms: seq<Move>, faults: Faults, k: nat)
    requires |floors| == |ns| && AllInRange(ms, |ns|)
    decreases |ms|
  {
    ms == [] ||
    (&& floors[ms[0].from] + ms[0].n <= ns[ms[0].from].records
     && DonorsStayAbove(Step(ns, ms[0], faults(k)), floors, ms[1..], faults, k + 1))
  }

  function Targets(ns: seq<Node>): (t: seq<nat>)
    ensures |t| == |ns|
  {
    seq(|ns|, i requires 0 <= i < |ns| => Target(Total(ns), |ns|, i))
  }

  /** A delta that still asks a node to give never exceeds what it has above its floor. */
  ghost predicate Covered(ns: seq<Node>, floors: seq<nat>, d: seq<int>)
    requires |floors| == |ns| == |d|
  {
    forall i :: 0 <= i < |ns| && d[i] < 0 ==> floors[i] <= ns[i].records + d[i]
  }

  lemma {:induction false} RunNeverUnderflows(ns: seq<Node>, floors: seq<nat>, d: seq<int>, ms: seq<Move>,
                                              faults: Faults, k: nat)
    requires |floors| == |ns| == |d| && Covered(ns, floors, d) && Feasible(d, ms)
    requires AllInRange(ms, |ns|)
    ensures DonorsStayAbove(ns, floors, ms, faults, k)
    decreases |ms|
  {
    hide Page;
    if ms != [] {
      var m := ms[0];
      RunNeverUnderflows(Step(ns, m, faults(k)), floors, Shift(d, m), ms[1..], faults, k + 1);
    }
  }

  lemma {:induction false} TotalUpdate(ns: seq<Node>, i: nat, n: Node)
    requires i < |ns|
    ensures Total(ns[i := n]) == Total(ns) - ns[i].records + n.records
  {
    var init := ns[..|ns| - 1];
    if i < |ns| - 1 {
      TotalUpdate(init, i, n);
      assert ns[i := n][..|ns| - 1] == init[i := n];
    } else {
      assert ns[i := n][..|ns| - 1] == init;
    }
  }

  lemma {:induction false} StepKeepsTotal(ns: seq<Node>, m: Move, f: TransferFaults)
    requires InRange(m, |ns|) && m.n <= ns[m.from].records
    ensures Total(Step(ns, m, f)) == Total(ns)
  {
    hide Page;
    var (a, b) := Transfer(ns[m.from], ns[m.to], m.n, f);
    TotalUpdate(ns, m.from, a);
    TotalUpdate(ns[m.from := a], m.to, b);
  }

  lemma {:induction false} RunKeepsTotal(ns: seq<Node>, floors: seq<nat>, ms: seq<Move>, faults: Faults, k: nat)
    requires |floors| == |ns| && AllInRange(ms, |ns|) && DonorsStayAbove(ns, floors, ms, faults, k)
    ensures Total(RunMoves(ns, ms, faults, k)) == Total(ns)
    decreases |ms|
  {
    hide Step;
    if ms != [] {
      StepKeepsTotal(ns, ms[0], faults(k));
      RunKeepsTotal(Step(ns, ms[0], faults(k)), floors, ms[1..], faults, k + 1);
    }
  }

  /** One successful move between accurately counted nodes. */
  lemma {:induction false} StepIsExact(ns: seq<Node>, m: Move, f: TransferFaults)
    requires InRange(m, |ns|) && AllOk(f) && 0 < m.n <= ns[m.from].records
    requires AllKeyed(ns) && PairwiseDisjoint(ns) && AllAccurate(ns)
    ensures AllKeyed(Step(ns, m, f)) && PairwiseDisjoint(Step(ns, m, f)) && AllAccurate(Step(ns, m, f))
    ensures Step(ns, m, f)[m.from].records == ns[m.from].records - m.n
    ensures Step(ns, m, f)[m.to].records == ns[m.to].records + m.n
    ensures forall i :: 0 <= i < |ns| && i != m.from && i != m.to ==> Step(ns, m, f)[i] == ns[i]
  {
    hide Transfer;
    OthersDisjoint(ns, m.from, m.to);
    assert Accurate(ns[m.from]) && Accurate(ns[m.to]);
    TransferMoves(ns[m.from], ns[m.to], m.n, f);
    MovedDisjoint(ns, m.from, m.to, m.n, f);
    MovedKeyed(ns, m.from, m.to, m.n, f);
  }

  ghost predicate Reaches(ns: seq<Node>, d: seq<int>, goal: seq<int>) {
    |ns| == |d| == |goal| && forall i :: 0 <= i < |ns| ==> ns[i].records + d[i] == goal[i] >= 0
  }

  /** With accurate counts and successful RPCs, what each node gains is exactly what its delta loses. */
  lemma {:induction false} RunIsExact(ns: seq<Node>, d: seq<int>, goal: seq<int>, ms: seq<Move>,
                                      faults: Faults, k: nat)
    requires Reaches(ns, d, goal) && Feasible(d, ms) && AllInRange(ms, |ns|)
    requires AllKeyed(ns) && PairwiseDisjoint(ns) && AllAccurate(ns)
    requires forall i :: AllOk(faults(i))
    ensures AllAccurate(RunMoves(ns, ms, faults, k))
    ensures Reaches(RunMoves(ns, ms, faults, k), After(d, ms), goal)
    decreases |ms|
  {
    hide Step;
    if ms != [] {
      var m := ms[0];
      assert AllOk(faults(k));
      StepIsExact(ns, m, faults(k));
      assert Reaches(Step(ns, m, faults(k)), Shift(d, m), goal);
      RunIsExact(Step(ns, m, faults(k)), Shift(d, m), goal, ms[1..], faults, k + 1);
    }
  }

  // ----- main results about balance -----

  /** For every pattern of failures no id is lost and none appears. */
  lemma BalanceLosesNoId(ns: seq<Node>, faults: Faults)
    requires AllKeyed(ns)
    ensures AllIds(BalanceNodes(ns, faults)) == AllIds(ns) && AllKeyed(BalanceNodes(ns, faults))
  {
    PlanSettles(ns);
    FeasibleInRange(Deltas(ns), Plan(ns));
    RunLosesNoId(ns, Plan(ns), faults, 0);
  }

  /** For every pattern of failures nodes that agree still do, and together hold exactly the same records. */
  lemma BalanceKeepsRecords(ns: seq<Node>, faults: Faults)
    requires AllKeyed(ns) && AllAgree(ns)
    ensures AllAgree(BalanceNodes(ns, faults)) && Contents(BalanceNodes(ns, faults)) == Contents(ns)
  {
    PlanSettles(ns);
    FeasibleInRange(Deltas(ns), Plan(ns));
    RunKeepsRecords(ns, Plan(ns), faults, 0);
  }

  lemma BalanceKeepsDisjoint(ns: seq<Node>, faults: Faults)
    requires AllKeyed(ns) && PairwiseDisjoint(ns) && forall i :: CleanTransfer(faults(i))
    ensures PairwiseDisjoint(BalanceNodes(ns, faults))
  {
    PlanSettles(ns);
    FeasibleInRange(Deltas(ns), Plan(ns));
    RunKeepsDisjoint(ns, Plan(ns), faults, 0);
  }

  lemma BalanceStaysBelow(ns: seq<Node>, faults: Faults, bound: nat)
    requires AllKeyed(ns) && Below(ns, bound)
    ensures Below(BalanceNodes(ns, faults), bound) && SameNodeIds(BalanceNodes(ns, faults), ns)
  {
    PlanSettles(ns);
    FeasibleInRange(Deltas(ns), Plan(ns));
    RunStaysBelow(ns, Plan(ns), faults, 0, bound);
  }

  /** For every pattern of failures no donor's counter drops below the donor's target during the planned
      transfers, so no unsigned subtraction wraps; and the cached total does not change. */
  lemma BalanceNeverUnderflows(ns: seq<Node>, faults: Faults)
    ensures AllInRange(Plan(ns), |ns|) && DonorsStayAbove(ns, Targets(ns), Plan(ns), faults, 0)
    ensures Total(BalanceNodes(ns, faults)) == Total(ns)
  {
    PlanSettles(ns);
    FeasibleInRange(Deltas(ns), Plan(ns));
    RunNeverUnderflows(ns, Targets(ns), Deltas(ns), Plan(ns), faults, 0);
    RunKeepsTotal(ns, Targets(ns), Plan(ns), faults, 0);
  }

  /** With accurate counts and successful transfers, a triggered balance leaves every node at its target. */
  lemma {:induction false} BalanceIsExact(ns: seq<Node>, faults: Faults)
    requires AllKeyed(ns) && PairwiseDisjoint(ns) && AllAccurate(ns) && forall i :: AllOk(faults(i))
    ensures AllAccurate(BalanceNodes(ns, faults))
    ensures Triggered(ns) ==> forall i :: 0 <= i < |ns| ==>
              |BalanceNodes(ns, faults)[i].store| == Target(Total(ns), |ns|, i)
  {
    hide RunMoves, After, Feasible, Plan, Target, Total;
    if Triggered(ns) {
      PlanSettles(ns);
      FeasibleInRange(Deltas(ns), Plan(ns));
      assert Reaches(ns, Deltas(ns), Targets(ns));
      RunIsExact(ns, Deltas(ns), Targets(ns), Plan(ns), faults, 0);
      var ns', d := BalanceNodes(ns, faults), After(Deltas(ns), Plan(ns));
      forall i | 0 <= i < |ns|
        ensures |ns'[i].store| == Target(Total(ns), |ns|, i)
      {
        assert d[i] == 0 && Accurate(ns'[i]);
      }
    }
  }

  lemma {:induction false} SumUpper(d: seq<int>, t: int)
    requires forall j :: 0 <= j < |d| ==> d[j] <= t
    ensures Sum(d) <= |d| * t
  {
    if d != [] {
      SumUpper(d[..|d| - 1], t);
      assert |d| * t == (|d| - 1) * t + t;
    }
  }

  /** Entries bounded above and summing to zero are bounded below. */
  lemma {:induction false} SumLower(d: seq<int>, t: int, i: nat)
    requires i < |d| && forall j :: 0 <= j < |d| ==> d[j] <= t
    ensures Sum(d) <= d[i] + (|d| - 1) * t
  {
    var init := d[..|d| - 1];
    if i == |d| - 1 {
      SumUpper(init, t);
    } else {
      SumLower(init, t, i);
      assert (|d| - 1) * t == (|init| - 1) * t + t;
    }
  }

  lemma {:induction false} CountAtMostTotal(ns: seq<Node>, i: nat)
    requires i < |ns|
    ensures ns[i].records <= Total(ns)
  {
    if i < |ns| - 1 {
      CountAtMostTotal(ns[..|ns| - 1], i);
    }
  }

  /** An untriggered balance means no node is more than 5% of the even share below its target, and hence none more
      than that times the number of other nodes above it. */
  lemma {:induction false} UntriggeredIsLevel(ns: seq<Node>, i: nat)
    requires i < |ns| && !Triggered(ns)
    ensures Target(Total(ns), |ns|, i) <= ns[i].records + Total(ns) / |ns| / 20
    ensures ns[i].records <= Target(Total(ns), |ns|, i) + (|ns| - 1) * (Total(ns) / |ns| / 20)
  {
    hide Target, Sum;
    var d, t := Deltas(ns), Total(ns) / |ns| / 20;
    if Total(ns) == 0 {
      assert t == 0 && (|ns| - 1) * t == 0;
      CountAtMostTotal(ns, i);
      NoTarget(|ns|, i);
    } else {
      DeltasSumToZero(ns);
      SumLower(d, t, i);
      assert d[i] == Target(Total(ns), |ns|, i) - ns[i].records;
    }
  }

  lemma NoTarget(n: nat, i: nat)
    requires n > 0
    ensures Target(0, n, i) == 0
  {
  }

  // ----- when a balance moves anything -----

  /** The even share of node i, the first nodes taking the remainder. */
  function EvenShare(total: nat, n: nat, i: nat): nat
    requires n > 0
  {
    if i < total % n then total / n + 1 else total / n
  }

  /** No node is more than 5% of the even share below its share. */
  ghost predicate InBalance(ns: seq<Node>) {
    forall i :: 0 <= i < |ns| ==> EvenShare(Total(ns), |ns|, i) <= ns[i].records + Total(ns) / |ns| / 20
  }

  lemma {:induction false} TriggeredIff(ns: seq<Node>)
    ensures Triggered(ns) <==> !InBalance(ns)
  {
    hide Total;
    forall i | 0 <= i < |ns|
      ensures Deltas(ns)[i] == EvenShare(Total(ns), |ns|, i) - ns[i].records
    {
    }
    if ns != [] && Total(ns) == 0 {
      assert Total(ns) / |ns| == 0 && Total(ns) % |ns| == 0;
    }
  }

  /** A balance moves nothing, whatever the RPCs would do, while no node is more than 5% of the even share short. Once
      one is, with accurate counts and successful transfers every node ends at its even share exactly. */
  lemma {:induction false} BalanceHysteresis(ns: seq<Node>, faults: Faults)
    ensures InBalance(ns) ==> BalanceNodes(ns, faults) == ns
    ensures !InBalance(ns) && AllKeyed(ns) && PairwiseDisjoint(ns) && AllAccurate(ns) && (forall i :: AllOk(faults(i)))
      ==> forall i :: 0 <= i < |ns| ==> |BalanceNodes(ns, faults)[i].store| == EvenShare(Total(ns), |ns|, i)
  {
    hide RunMoves, Plan, Total, InBalance;
    TriggeredIff(ns);
    if !InBalance(ns) && AllKeyed(ns) && PairwiseDisjoint(ns) && AllAccurate(ns) && forall i :: AllOk(faults(i)) {
      BalanceIsExact(ns, faults);
    }
  }

  lemma EvenIsInBalance(ns: seq<Node>, total: nat)
    requires Total(ns) == total && forall i :: 0 <= i < |ns| ==> ns[i].records == EvenShare(total, |ns|, i)
    ensures InBalance(ns)
  {
    hide EvenShare, Total;
  }

  /** With accurate counts and successful transfers the load is in balance after a balance. */
  lemma {:induction false} BalanceLevels(ns: seq<Node>, faults: Faults)
    requires AllKeyed(ns) && PairwiseDisjoint(ns) && AllAccurate(ns) && forall i :: AllOk(faults(i))
    ensures InBalance(BalanceNodes(ns, faults)) && AllAccurate(BalanceNodes(ns, faults))
  {
    hide BalanceNodes, Total, EvenShare, InBalance, Target, Triggered;
    BalanceHysteresis(ns, faults);
    BalanceIsExact(ns, faults);
    if !InBalance(ns) {
      BalanceNeverUnderflows(ns, faults);
      var ns' := BalanceNodes(ns, faults);
      forall i | 0 <= i < |ns'|
        ensures ns'[i].records == EvenShare(Total(ns), |ns'|, i)
      {
        assert Accurate(ns'[i]);
      }
      EvenIsInBalance(ns', Total(ns));
    }
  }

  // ----- the order of the transfers -----

  ghost predicate Before(a: Move, b: Move) {
    a.to < b.to || (a.to == b.to && a.from < b.from)
  }

  /** Receivers are served in order, each by the donors in order. */
  ghost predicate InServingOrder(ms: seq<Move>) {
    forall a, b :: 0 <= a < b < |ms| ==> Before(ms[a], ms[b])
  }

  ghost predicate FromOn(ms: seq<Move>, i: nat, j: nat) {
    forall a :: 0 <= a < |ms| ==> ms[a].to > i || (ms[a].to == i && ms[a].from >= j)
  }

  lemma PrependInOrder(m: Move, ms: seq<Move>, i: nat, j: nat)
    requires m.to == i && m.from == j && InServingOrder(ms) && FromOn(ms, i, j + 1)
    ensures InServingOrder([m] + ms) && FromOn([m] + ms, i, j)
  {
  }

  lemma {:induction false} GreedyInOrder(d: seq<int>, i: nat, j: nat)
    requires i <= |d| && j <= |d|
    ensures InServingOrder(Greedy(d, i, j)) && FromOn(Greedy(d, i, j), i, j)
    decreases |d| - i, |d| - j
  {
    hide InServingOrder, Shift;
    if i == |d| {
      NoMoves();
    } else if d[i] <= 0 || j == |d| {
      GreedyInOrder(d, i + 1, 0);
    } else if d[j] >= 0 {
      GreedyInOrder(d, i, j + 1);
    } else {
      var m := Move(j, i, if -d[j] > d[i] then d[i] else -d[j]);
      GreedyInOrder(Shift(d, m), i, j + 1);
      PrependInOrder(m, Greedy(Shift(d, m), i, j + 1), i, j);
      GreedyMoves(d, i, j, m);
    }
  }

  lemma NoMoves()
    ensures InServingOrder([])
  {
  }

  /** Each transfer moves all its donor must still give or all its receiver still needs, whichever is less. */
  ghost predicate MovesAll(d: seq<int>, ms: seq<Move>)
    requires Feasible(d, ms)
    decreases |ms|
  {
    ms == [] || ((ms[0].n == d[ms[0].to] || ms[0].n == -d[ms[0].from]) && MovesAll(Shift(d, ms[0]), ms[1..]))
  }

  lemma {:induction false} GreedyMovesAll(d: seq<int>, i: nat, j: nat)
    requires i <= |d| && j <= |d| && Feasible(d, Greedy(d, i, j))
    ensures MovesAll(d, Greedy(d, i, j))
    decreases |d| - i, |d| - j
  {
    if i == |d| {
    } else if d[i] <= 0 || j == |d| {
      GreedyMovesAll(d, i + 1, 0);
    } else if d[j] >= 0 {
      GreedyMovesAll(d, i, j + 1);
    } else {
      var m := Move(j, i, if -d[j] > d[i] then d[i] else -d[j]);
      GreedyMoves(d, i, j, m);
      var rest := Greedy(Shift(d, m), i, j + 1);
      assert ([m] + rest)[0] == m && ([m] + rest)[1..] == rest;
      GreedyMovesAll(Shift(d, m), i, j + 1);
    }
  }

  /** The plan serves the first receiver from the first donors on, each transfer as large as it can be. */
  lemma {:induction false} PlanInOrder(ns: seq<Node>)
    ensures InServingOrder(Plan(ns)) && Feasible(Deltas(ns), Plan(ns)) && MovesAll(Deltas(ns), Plan(ns))
  {
    hide Greedy, Deltas;
    PlanSettles(ns);
    GreedyInOrder(Deltas(ns), 0, 0);
    GreedyMovesAll(Deltas(ns), 0, 0);
  }
}
