/** The master service: node objects whose status fields the handlers update in place. Every handler is proved
    to take the cluster from one state to the next as its specification function says. */
module Service {
  import opened Wrappers
  import opened Records
  import opened Paging
  import opened Nodes
  import opened Balance
  import Cluster

  /** A controlled node: its cached status, and the record store at the other end of its RPCs. */
  class NodeInfo {
    var id: nat
    var records: nat
    var nextRecordId: nat
    var store: Store
    var storeNext: nat

    ghost function View(): Node
      reads this
    {
      Node(id, store, storeNext, records, nextRecordId)
    }

    constructor (id: nat, store: Store, storeNext: nat)
      ensures View() == Node(id, store, storeNext, |store|, storeNext)
    {
      this.id, this.store, this.storeNext := id, store, storeNext;
      this.records, this.nextRecordId := |store|, storeNext;
    }

    /** Refresh the cached status, if the node answers. */
    method UpdateStatus(answered: bool)
      modifies this
      ensures View() == Cluster.Refreshed(old(View()), answered)
    {
      if answered {
        records, nextRecordId := |store|, storeNext;
      }
    }
  }

  ghost predicate AllDistinct(ns: seq<NodeInfo>) {
    forall i, j :: 0 <= i < j < |ns| ==> ns[i] != ns[j]
  }

  ghost function Views(ns: seq<NodeInfo>): (vs: seq<Node>)
    reads ns
    ensures |vs| == |ns|
    ensures forall i :: 0 <= i < |ns| ==> vs[i] == ns[i].View()
  {
    seq(|ns|, i requires 0 <= i < |ns| reads ns => ns[i].View())
  }

  /** The ids to delete on the donor, and the receiver's next id raised past them. */
  method CollectMoved(rs: seq<Record>, next: nat) returns (ids: set<nat>, raised: nat)
    ensures ids == Ids(rs) && raised == RaiseNext(next, rs)
  {
    ids, raised := {}, next;
    for k := 0 to |rs|
      invariant ids == Ids(rs[..k])
      invariant raised == RaiseNext(next, rs[..k])
    {
      assert rs[..k + 1][..k] == rs[..k];
      IdsSplit(rs[..k + 1]);
      ids := ids + {rs[k].id};
      if raised <= rs[k].id {
        raised := rs[k].id + 1;
      }
    }
    assert rs[..|rs|] == rs;
  }

  /** Move up to `n` records from one node to another. */
  method TransferRecords(fromNode: NodeInfo, toNode: NodeInfo, n: nat, f: TransferFaults)
    requires fromNode != toNode
    modifies fromNode, toNode
    ensures (fromNode.View(), toNode.View()) == Transfer(old(fromNode.View()), old(toNode.View()), n, f)
  {
    hide Page;
    if !f.listed {
      return;
    }
    var rs := Page(fromNode.store, 1, n);
    toNode.store := StoreMany(toNode.store, rs, f.create);
    if f.create != Stored {
      return;
    }
    toNode.records := toNode.records + n;
    var ids, raised := CollectMoved(rs, toNode.nextRecordId);
    toNode.nextRecordId := raised;
    if f.deleted {
      fromNode.store := fromNode.store - ids;
    }
    fromNode.records := Sub64(fromNode.records, n);
  }

  /** Moves still to be made from receiver `i` and donor `j` on lead to the planned end state, and settle
      every delta. */
  ghost predicate OnPlan(ns: seq<Node>, d: seq<int>, i: nat, j: nat, faults: Faults, k: nat, goal: seq<Node>) {
    && i <= |d| == |ns| && j <= |d|
    && AllInRange(Greedy(d, i, j), |ns|)
    && RunMoves(ns, Greedy(d, i, j), faults, k) == goal
    && Feasible(d, Greedy(d, i, j))
    && AllZero(After(d, Greedy(d, i, j)))
  }

  lemma {:induction false} OnPlanSkips(ns: seq<Node>, d: seq<int>, i: nat, j: nat, faults: Faults, k: nat,
                                       goal: seq<Node>)
    requires OnPlan(ns, d, i, j, faults, k, goal) && i < |d|
    ensures d[i] <= 0 || j == |d| ==> OnPlan(ns, d, i + 1, 0, faults, k, goal)
    ensures d[i] > 0 && j < |d| && d[j] >= 0 ==> OnPlan(ns, d, i, j + 1, faults, k, goal)
  {
  }

  lemma {:induction false} OnPlanMoves(ns: seq<Node>, d: seq<int>, i: nat, j: nat, faults: Faults, k: nat,
                                       goal: seq<Node>, m: Move)
    requires OnPlan(ns, d, i, j, faults, k, goal) && i < |d| && j < |d| && d[j] < 0 < d[i]
    requires m == Move(j, i, if -d[j] > d[i] then d[i] else -d[j])
    ensures OnPlan(Step(ns, m, faults(k)), Shift(d, m), i, j + 1, faults, k + 1, goal)
  {
  }

  /** An even share, one more for the first nodes when there is a remainder. */
  method Share(total: nat, n: nat, i: nat) returns (share: nat)
    requires n > 0
    ensures share == Target(total, n, i)
  {
    var perNode, remainder := total / n, total % n;
    share := perNode;
    if i < remainder {
      share := share + 1;
    }
  }

  lemma DeltaAt(ns: seq<Node>, i: nat)
    requires i < |ns|
    ensures Deltas(ns)[i] == Target(Total(ns), |ns|, i) - ns[i].records
  {
  }

  /** The closing loop: one warning for every delta that is not zero. */
  method CountUnsettled(deltas: array<int>) returns (warnings: int)
    ensures warnings == Unsettled(deltas[..])
    ensures AllZero(deltas[..]) ==> warnings == 0
  {
    warnings := 0;
    for i := 0 to deltas.Length
      invariant warnings == Unsettled(deltas[..i])
      invariant AllZero(deltas[..]) ==> warnings == 0
    {
      assert deltas[..i + 1][..i] == deltas[..i] && deltas[..][i] == deltas[i];
      if deltas[i] != 0 {
        warnings := warnings + 1;
      }
    }
    assert deltas[..deltas.Length] == deltas[..];
  }

  method HighestId(rs: seq<Record>) returns (maxId: nat)
    ensures maxId == Cluster.MaxId(rs)
  {
    maxId := 0;
    for k := 0 to |rs|
      invariant maxId == Cluster.MaxId(rs[..k])
    {
      assert rs[..k + 1][..k] == rs[..k];
      if rs[k].id > maxId {
        maxId := rs[k].id;
      }
    }
    assert rs[..|rs|] == rs;
  }

  lemma {:induction false} NothingDrained(rest: seq<Node>, leaving: Node, faults: Faults)
    requires rest == [] || leaving.records == 0
    ensures Cluster.Drained(rest, leaving, faults) == rest + [leaving]
  {
  }

  /** The creator's new state, field by field. */
  lemma CreatorIs(c: Cluster.State, i: nat, rs: seq<Record>, o: CreateOutcome, maxId: nat)
    requires i < |c.nodes| && maxId == Cluster.MaxId(rs)
    ensures var n := c.nodes[i];
            var n' := n.(store := StoreMany(n.store, rs, o));
            var low := n.nextRecordId <= maxId;
            var next := if low then maxId + 1 else n.nextRecordId;
            var c' := Cluster.Creator(c, i, rs, o).0;
      && c'.nodes == c.nodes[i := if o == Stored then n'.(records := n.records + |rs|, nextRecordId := next) else n']
      && c'.nextId == (if o == Stored && low then Cluster.SetNextIdIfHigher(c.nextId, maxId + 1) else c.nextId)
      && c'.nextNodeId == c.nextNodeId
  {
    hide StoreMany, Cluster.MaxId;
  }

  class Master {
    var nodes: seq<NodeInfo>
    var nextId: nat
    var nextNodeId: nat

    ghost predicate Valid()
      reads this
    {
      AllDistinct(nodes)
    }

    ghost function State(): Cluster.State
      reads this, nodes
    {
      Cluster.State(Views(nodes), nextId, nextNodeId)
    }

    /** A master over the given nodes: ids start at 1, node ids after those in use, and the load is levelled. */
    constructor (ns: seq<NodeInfo>, faults: Faults)
      requires AllDistinct(ns)
      modifies ns
      ensures Valid() && nodes == ns
      ensures State() == Cluster.Balanced(Cluster.State(old(Views(ns)), 1, |ns| + 1), faults)
    {
      nodes, nextId, nextNodeId := ns, 1, |ns| + 1;
      new;
      var _ := BalanceLoad(faults);
    }

    // ----- helpers -----

    method SetNextId(newId: nat)
      modifies this`nextId
      ensures nextId == newId
      ensures Views(nodes) == old(Views(nodes))
    {
      nextId := newId;
    }

    method SetNextIdIfHigher(newId: nat)
      modifies this`nextId
      ensures nextId == Cluster.SetNextIdIfHigher(old(nextId), newId)
      ensures Views(nodes) == old(Views(nodes))
    {
      if nextId <= newId {
        nextId := newId + 1;
      }
    }

    /** The first node with the fewest cached records, if there are nodes. */
    method FindLessLoadedNode() returns (target: Option<nat>)
      ensures target.None? <==> nodes == []
      ensures target.Some? ==> target.value == Cluster.LeastLoaded(Views(nodes))
    {
      target := None;
      for i := 0 to |nodes|
        invariant i == 0 ==> target.None?
        invariant i > 0 ==> target.Some? && target.value < i
        invariant i > 0 ==> target.value == Cluster.LeastLoaded(Views(nodes)[..i])
      {
        assert Views(nodes)[..i + 1][..i] == Views(nodes)[..i];
        if target.None? || nodes[i].records < nodes[target.value].records {
          target := Some(i);
        }
      }
      assert Views(nodes)[..|nodes|] == Views(nodes);
    }

    // ----- balance -----

    /** Level the load. The k-th transfer meets the k-th fault pattern. No delta is left to warn about. */
    method BalanceLoad(faults: Faults) returns (warnings: int)
      requires Valid()
      modifies nodes
      ensures State() == Cluster.Balanced(old(State()), faults)
      ensures warnings == 0
    {
      hide Total, Deltas, RunMoves, Plan;
      warnings := 0;
      var tot := TotalRecords();
      if tot != 0 && |nodes| != 0 {
        var deltas, needsBalancing := ComputeDeltas(tot);
        if needsBalancing {
          CarryOut(deltas, faults);
          warnings := CountUnsettled(deltas);
        }
      }
    }

    /** The outer loop: serve one receiver after the other. */
    method CarryOut(deltas: array<int>, faults: Faults)
      requires Valid() && deltas[..] == Deltas(Views(nodes)) && Triggered(Views(nodes))
      modifies nodes, deltas
      ensures Views(nodes) == BalanceNodes(old(Views(nodes)), faults)
      ensures AllZero(deltas[..])
    {
      hide Step, Deltas, Shift;
      ghost var ns := Views(nodes);
      PlanSettles(ns);
      FeasibleInRange(Deltas(ns), Plan(ns));
      ghost var goal := BalanceNodes(ns, faults);
      var k := 0;
      for i := 0 to |nodes|
        invariant OnPlan(Views(nodes), deltas[..], i, 0, faults, k, goal)
      {
        k := ServeReceiver(deltas, i, faults, k, goal);
      }
    }

    /** What each node should gain, and whether some node is more than 5% of the even share short. */
    method ComputeDeltas(tot: nat) returns (deltas: array<int>, needsBalancing: bool)
      requires nodes != [] && tot == Total(Views(nodes)) > 0
      ensures fresh(deltas) && deltas[..] == Deltas(Views(nodes))
      ensures needsBalancing <==> Triggered(Views(nodes))
    {
      hide Total, Target, Deltas;
      ghost var d := Deltas(Views(nodes));
      var perNode := tot / |nodes|;
      deltas := new int[|nodes|];
      needsBalancing := false;
      for i := 0 to |nodes|
        invariant fresh(deltas) && deltas.Length == |nodes| && d == Deltas(Views(nodes))
        invariant forall j :: 0 <= j < i ==> deltas[j] == d[j]
        invariant needsBalancing <==> exists j :: 0 <= j < i && d[j] > perNode / 20
      {
        var target := Share(tot, |nodes|, i);
        DeltaAt(Views(nodes), i);
        deltas[i] := target - nodes[i].records;
        if !needsBalancing && deltas[i] > perNode / 20 {
          needsBalancing := true;
        }
      }
      assert deltas[..] == d;
    }

    /** One transfer between two slots, and its deltas. */
    method MoveBetween(deltas: array<int>, i: nat, j: nat, nRecords: nat, f: TransferFaults)
      requires Valid() && i < deltas.Length == |nodes| && j < deltas.Length && i != j
      modifies nodes, deltas
      ensures Views(nodes) == Step(old(Views(nodes)), Move(j, i, nRecords), f)
      ensures deltas[..] == Shift(old(deltas[..]), Move(j, i, nRecords))
    {
      hide Transfer;
      TransferRecords(nodes[j], nodes[i], nRecords, f);
      assert Views(nodes) == Step(old(Views(nodes)), Move(j, i, nRecords), f);
      deltas[i] := deltas[i] - nRecords;
      deltas[j] := deltas[j] + nRecords;
    }

    /** The inner loop: feed receiver `i` from the donors, in order, until it needs nothing more. */
    method ServeReceiver(deltas: array<int>, i: nat, faults: Faults, k0: nat, ghost goal: seq<Node>) returns (k: nat)
      requires Valid() && i < deltas.Length == |nodes|
      requires OnPlan(Views(nodes), deltas[..], i, 0, faults, k0, goal)
      modifies nodes, deltas
      ensures OnPlan(Views(nodes), deltas[..], i + 1, 0, faults, k, goal)
    {
      hide Step, OnPlan, Greedy;
      k := k0;
      var delta := deltas[i];
      if delta <= 0 {
        OnPlanSkips(Views(nodes), deltas[..], i, 0, faults, k, goal);
        return;
      }
      var j := 0;
      while j < deltas.Length && delta != 0
        invariant 0 <= j <= deltas.Length && delta == deltas[i] >= 0
        invariant OnPlan(Views(nodes), deltas[..], i, j, faults, k, goal)
      {
        var delta2 := deltas[j];
        if delta2 < 0 {
          var nRecords := -delta2;
          if nRecords > delta {
            nRecords := delta;
          }
          ghost var ns, d, m := Views(nodes), deltas[..], Move(j, i, nRecords);
          OnPlanMoves(ns, d, i, j, faults, k, goal, m);
          MoveBetween(deltas, i, j, nRecords, faults(k));
          delta := delta - nRecords;
          k := k + 1;
        } else {
          OnPlanSkips(Views(nodes), deltas[..], i, j, faults, k, goal);
        }
        j := j + 1;
      }
      OnPlanSkips(Views(nodes), deltas[..], i, j, faults, k, goal);
    }

    // ----- creating records -----

    /** A single create on one node; when it succeeds the node's status is brought up to date. */
    method CreateOn(i: nat, r: Record, o: CreateOutcome, next: nat) returns (ok: bool)
      requires Valid() && i < |nodes|
      modifies nodes
      ensures ok <==> Cluster.CreateOneOk(old(nodes[i].store), r, o)
      ensures Views(nodes) == var n := old(nodes[i].View());
                var n' := n.(store := Cluster.CreateOne(n.store, r, o));
                old(Views(nodes))[i := if ok then n'.(records := n.records + 1, nextRecordId := next) else n']
    {
      ok := r.id !in nodes[i].store && o == Stored;
      if r.id !in nodes[i].store && (o == Stored || o == StoredButFailed) {
        nodes[i].store := nodes[i].store[r.id := r];
      }
      if ok {
        nodes[i].records := nodes[i].records + 1;
        nodes[i].nextRecordId := next;
      }
    }

    /** Create a record under the next id on one node. */
    method CreateNext(i: nat, rec: Record, o: CreateOutcome) returns (ok: bool)
      requires Valid() && i < |nodes|
      modifies this`nextId, nodes
      ensures State() == Cluster.CreateNext(old(State()), i, rec, o).0
      ensures ok == Cluster.CreateNext(old(State()), i, rec, o).1
    {
      ok := CreateOn(i, rec.(id := nextId), o, nextId + 1);
      if ok {
        SetNextId(nextId + 1);
      }
    }

    /** Create a record under the next id. */
    method CreateRecord(rec: Record, o: CreateOutcome) returns (ok: bool)
      requires Valid()
      modifies this`nextId, nodes
      ensures State() == Cluster.CreateRecord(old(State()), rec, o).0
      ensures ok == Cluster.CreateRecord(old(State()), rec, o).1
    {
      hide Cluster.LeastLoaded, Cluster.CreateNext;
      ok := false;
      var target := FindLessLoadedNode();
      if target.Some? {
        ok := CreateNext(target.value, rec, o);
      }
    }

    /** Ask every node for a record. */
    method IsReported(id: nat, answers: nat -> bool) returns (found: bool)
      ensures found <==> Cluster.Reported(Views(nodes), id, answers)
    {
      found := false;
      for j := 0 to |nodes|
        invariant found <==> exists k :: 0 <= k < j && answers(k) && id in Views(nodes)[k].store
      {
        if answers(j) && id in nodes[j].store {
          found := true;
        }
      }
    }

    /** Create a record under its own id on one node, raising the next ids past it. */
    method CreateAt(i: nat, r: Record, o: CreateOutcome) returns (ok: bool)
      requires Valid() && i < |nodes|
      modifies this`nextId, nodes
      ensures State() == Cluster.CreateAt(old(State()), i, r, o).0
      ensures ok == Cluster.CreateAt(old(State()), i, r, o).1
    {
      var next := nodes[i].nextRecordId;
      if next <= r.id {
        next := r.id + 1;
      }
      ok := CreateOn(i, r, o, next);
      if ok && nextId < next {
        SetNextId(next);
      }
    }

    /** Create a record under a given id, unless an answering node already holds it. */
    method CreateRecordWithId(r: Record, answers: nat -> bool, o: CreateOutcome) returns (ok: bool)
      requires Valid()
      modifies this`nextId, nodes
      ensures State() == Cluster.CreateRecordWithId(old(State()), r, answers, o).0
      ensures ok == Cluster.CreateRecordWithId(old(State()), r, answers, o).1
    {
      hide Cluster.LeastLoaded, Cluster.CreateAt;
      ok := false;
      var target := FindLessLoadedNode();
      var found := IsReported(r.id, answers);
      if target.Some? && !found {
        ok := CreateAt(target.value, r, o);
      }
    }

    /** Create one slice of a batch on one node. */
    method Creator(i: nat, rs: seq<Record>, o: CreateOutcome) returns (ok: bool)
      requires Valid() && i < |nodes|
      modifies this`nextId, nodes
      ensures State() == Cluster.Creator(old(State()), i, rs, o).0
      ensures ok == Cluster.Creator(old(State()), i, rs, o).1
    {
      hide StoreMany, Insert, Views, Cluster.MaxId, Cluster.Creator, Cluster.SetNextIdIfHigher;
      ghost var s0 := State();
      var maxId := HighestId(rs);
      CreatorIs(s0, i, rs, o, maxId);
      ok := o == Stored;
      var low := nodes[i].nextRecordId <= maxId;
      StoreOn(i, rs, o, if low then maxId + 1 else nodes[i].nextRecordId);
      assert Views(nodes) == Cluster.Creator(s0, i, rs, o).0.nodes;
      if ok && low {
        SetNextIdIfHigher(maxId + 1);
      }
    }

    /** A batch create on one node; when it succeeds the node's status is brought up to date. */
    method StoreOn(i: nat, rs: seq<Record>, o: CreateOutcome, next: nat)
      requires Valid() && i < |nodes|
      modifies nodes
      ensures Views(nodes) == var n := old(nodes[i].View());
                var n' := n.(store := StoreMany(n.store, rs, o));
                old(Views(nodes))[i := if o == Stored then n'.(records := n.records + |rs|, nextRecordId := next)
                                       else n']
    {
      nodes[i].store := StoreMany(nodes[i].store, rs, o);
      if o == Stored {
        nodes[i].records := nodes[i].records + |rs|;
        nodes[i].nextRecordId := next;
      }
    }

    /** The splitting loop: each node is offered its share and what earlier nodes refused. */
    method SpreadOver(recs: seq<Record>, outs: nat -> CreateOutcome) returns (start: nat, successful: Option<nat>)
      requires Valid() && nodes != []
      modifies this`nextId, nodes
      ensures var p := Cluster.Spread(old(State()), recs, outs, |nodes|);
              State() == p.c && start == p.start && successful == p.last
    {
      hide Cluster.Creator, Target;
      var n := |nodes|;
      var end: nat := 0;
      start, successful := 0, None;
      ghost var s0 := State();
      ghost var p := Cluster.Spread(s0, recs, outs, 0);
      for i := 0 to n
        invariant end == TargetSum(|recs|, n, i)
        invariant p == Cluster.Spread(s0, recs, outs, i)
        invariant State() == p.c && start == p.start && successful == p.last
      {
        var share := Share(|recs|, n, i);
        end := end + share;
        Cluster.SpreadNext(s0, recs, outs, i, end);
        var ok := Creator(i, recs[start..end], outs(i));
        p := Cluster.Spread(s0, recs, outs, i + 1);
        if ok {
          successful, start := Some(i), end;
        }
      }
    }

    /** Create a batch: split it, fall back on the last node that accepted, roll back if that fails too. */
    method CreateRecordsWithId(recs: seq<Record>, outs: nat -> CreateOutcome, fallback: CreateOutcome,
                               pf: Cluster.PurgeFaults, faults: Faults) returns (ok: bool)
      requires Valid()
      modifies this`nextId, nodes
      ensures State() == Cluster.CreateRecordsWithId(old(State()), recs, outs, fallback, pf, faults).0
      ensures ok == Cluster.CreateRecordsWithId(old(State()), recs, outs, fallback, pf, faults).1
    {
      hide Cluster.Creator, TargetSum, Cluster.Spread;
      if nodes == [] {
        return false;
      }
      var start, successful := SpreadOver(recs, outs);
      Cluster.SharesGrow(|recs|, |nodes|, |nodes|);
      if successful.None? {
        return false;
      }
      if start != |recs| {
        var stored := Creator(successful.value, recs[start..], fallback);
        if !stored {
          var _ := DeleteRecords(Cluster.IdsOf(recs), pf, faults);
          return false;
        }
      }
      var _ := BalanceLoad(faults);
      return true;
    }

    // ----- deleting records -----

    method TotalRecords() returns (total: nat)
      ensures total == Total(Views(nodes))
    {
      total := 0;
      for i := 0 to |nodes|
        invariant total == Total(Views(nodes)[..i])
      {
        assert Views(nodes)[..i + 1][..i] == Views(nodes)[..i];
        total := total + nodes[i].records;
      }
      assert Views(nodes)[..|nodes|] == Views(nodes);
    }

    /** What one fan-out worker of a bulk delete does to its node. */
    method PurgeNode(i: nat, ids: set<nat>, deleted: bool, informed: bool)
      requires Valid() && i < |nodes|
      modifies nodes
      ensures Views(nodes) ==
              old(Views(nodes))[i := Cluster.Refreshed(Cluster.Purged(old(nodes[i].View()), ids, deleted), informed)]
    {
      if deleted {
        nodes[i].store := nodes[i].store - ids;
      }
      nodes[i].UpdateStatus(informed);
    }

    /** Delete ids everywhere, one node after the other, refreshing each node's status and the next id. */
    method PurgeNodes(ids: set<nat>, pf: Cluster.PurgeFaults)
      requires Valid()
      modifies this`nextId, nodes
      ensures Views(nodes) == Cluster.PurgeAll(old(Views(nodes)), ids, pf)
      ensures nextId == Cluster.RaiseAll(old(nextId), Views(nodes))
    {
      hide Cluster.Purged, Cluster.Refreshed, Cluster.RaiseAll;
      ghost var before, goal := Views(nodes), Cluster.PurgeAll(Views(nodes), ids, pf);
      Cluster.RaiseNone(nextId, goal);
      for i := 0 to |nodes|
        invariant forall j :: 0 <= j < i ==> Views(nodes)[j] == goal[j]
        invariant forall j :: i <= j < |nodes| ==> Views(nodes)[j] == before[j]
        invariant nextId == Cluster.RaiseAll(old(nextId), goal[..i])
      {
        PurgeNode(i, ids, pf.deleted(i), pf.informed(i));
        assert Views(nodes)[i] == goal[i];
        SetNextIdIfHigher(nodes[i].nextRecordId);
        Cluster.RaiseOneMore(old(nextId), goal, i);
      }
      assert goal[..|nodes|] == goal;
    }

    /** Delete many records; success is judged by the change of the cached total. */
    method DeleteRecords(ids: seq<nat>, pf: Cluster.PurgeFaults, faults: Faults) returns (ok: bool)
      requires Valid()
      modifies this`nextId, nodes
      ensures State() == Cluster.DeleteRecords(old(State()), ids, pf, faults).0
      ensures ok == Cluster.DeleteRecords(old(State()), ids, pf, faults).1
    {
      hide Total, BalanceNodes, Cluster.PurgeAll, Cluster.RaiseAll;
      var oldTotal := TotalRecords();
      PurgeNodes(Cluster.IdSet(ids), pf);
      var _ := BalanceLoad(faults);
      var newTotal := TotalRecords();
      return |ids| == Sub64(oldTotal, newTotal);
    }

    // ----- nodes -----

    /** Refresh every cached status. */
    method UpdateNodes(answered: nat -> bool)
      requires Valid()
      modifies nodes
      ensures State() == Cluster.UpdateNodes(old(State()), answered)
    {
      ghost var goal := Cluster.UpdateNodes(State(), answered).nodes;
      for i := 0 to |nodes|
        invariant forall j :: 0 <= j < i ==> nodes[j].View() == goal[j]
        invariant forall j :: i <= j < |nodes| ==> nodes[j].View() == old(Views(nodes))[j]
      {
        nodes[i].UpdateStatus(answered(i));
      }
    }

    /** A node reporting `store` and `storeNext` joins, unless it cannot be reached. */
    method AddNode(reached: bool, store: Store, storeNext: nat, faults: Faults) returns (added: Option<NodeInfo>)
      requires Valid()
      modifies this, nodes
      ensures Valid() && added.Some? == reached
      ensures !reached ==> nodes == old(nodes) && State() == old(State())
      ensures reached ==> fresh(added.value) && nodes == old(nodes) + [added.value]
      ensures reached ==> State() == Cluster.AddNode(old(State()), store, storeNext, faults)
    {
      if !reached {
        return None;
      }
      var n := new NodeInfo(nextNodeId, store, storeNext);
      SetNextIdIfHigher(storeNext);
      ghost var before := old(Views(nodes));
      nodes := nodes + [n];
      nextNodeId := nextNodeId + 1;
      assert Views(nodes) == before + [n.View()];
      var _ := BalanceLoad(faults);
      return Some(n);
    }

    /** Remove a node and hand its records to the others. */
    method DeleteNode(id: nat, faults: Faults) returns (removed: bool, panicked: bool, leaving: Option<NodeInfo>)
      requires Valid()
      modifies this`nodes, nodes
      ensures Valid()
      ensures var r := Cluster.DeleteNode(old(State()), id, faults);
        && panicked == r.Panicked? && removed == r.Removed?
        && (!removed ==> nodes == old(nodes) && State() == old(State()))
        && (removed ==> leaving.Some? && leaving.value in old(nodes) && leaving.value !in nodes
                        && State() == r.c && leaving.value.View() == r.leaving)
    {
      hide Cluster.FindNode, Cluster.SwapRemove, Cluster.Drained;
      removed, panicked, leaving := false, false, None;
      if nodes == [] {
        panicked := true;
        return;
      }
      var i := IndexOf(id);
      if i == |nodes| {
        return;
      }
      var n := RemoveAt(i);
      removed, leaving := true, Some(n);
      if |nodes| > 0 && n.records > 0 {
        DrainInto(n, faults);
      } else {
        NothingDrained(Views(nodes), n.View(), faults);
      }
    }

    /** The search loop: the first node with the id, or the number of nodes. */
    method IndexOf(id: nat) returns (i: nat)
      ensures i == Cluster.FindNode(Views(nodes), id, 0)
    {
      i := 0;
      while i < |nodes| && nodes[i].id != id
        invariant 0 <= i <= |nodes|
        invariant Cluster.FindNode(Views(nodes), id, 0) == Cluster.FindNode(Views(nodes), id, i)
      {
        i := i + 1;
      }
    }

    /** Swap-remove: the last node takes the freed slot. */
    method RemoveAt(i: nat) returns (n: NodeInfo)
      requires Valid() && i < |nodes|
      modifies this`nodes
      ensures Valid() && n == old(nodes)[i] && n !in nodes
      ensures forall j :: 0 <= j < |nodes| ==> nodes[j] in old(nodes)
      ensures Views(nodes) == Cluster.SwapRemove(old(Views(nodes)), i) && n.View() == old(Views(nodes))[i]
    {
      n := nodes[i];
      nodes := nodes[i := nodes[|nodes| - 1]][..|nodes| - 1];
      assert forall j :: 0 <= j < |nodes| ==> nodes[j] != n && nodes[j] in old(nodes);
    }

    /** One transfer from a node that has left to survivor `i`. */
    method DrainOne(n: NodeInfo, i: nat, target: nat, f: TransferFaults)
      requires Valid() && n !in nodes && i < |nodes|
      modifies nodes, n
      ensures Views(nodes) + [n.View()] ==
              Step(old(Views(nodes) + [n.View()]), Move(|nodes|, i, target), f)
    {
      hide Transfer;
      TransferRecords(n, nodes[i], target, f);
    }

    /** The transfers from a node that has left to each survivor. */
    method DrainInto(n: NodeInfo, faults: Faults)
      requires Valid() && nodes != [] && n !in nodes && n.records > 0
      modifies nodes, n
      ensures Views(nodes) + [n.View()] == Cluster.Drained(old(Views(nodes)), old(n.View()), faults)
    {
      hide Step, Target;
      var nNodes := |nodes|;
      var total := n.records;
      ghost var ms := Cluster.DrainMoves(n.records, nNodes);
      ghost var goal := Cluster.Drained(Views(nodes), n.View(), faults);
      assert ms[0..] == ms;
      for i := 0 to nNodes
        invariant AllInRange(ms[i..], nNodes + 1)
        invariant RunMoves(Views(nodes) + [n.View()], ms[i..], faults, i) == goal
      {
        var target := Share(total, nNodes, i);
        assert ms[i..][0] == Move(nNodes, i, target) && ms[i..][1..] == ms[i + 1..];
        DrainOne(n, i, target, faults(i));
      }
    }
  }
}
