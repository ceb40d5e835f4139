/** The master's record and node handlers (master/mux_records.go, master/mux_nodes.go) as functions from one
    cluster state to the next. Every RPC outcome is a parameter. */
module Cluster {
  import opened Wrappers
  import opened Records
  import opened Nodes
  import opened Balance

  datatype State = State(nodes: seq<Node>, nextId: nat, nextNodeId: nat)

  /** Effect of the per-node RPCs of a bulk delete: was the delete applied, did the status query answer. */
  datatype PurgeFaults = PurgeFaults(deleted: nat -> bool, informed: nat -> bool)

  function SetNextIdIfHigher(nextId: nat, newId: nat): nat {
    if nextId <= newId then newId + 1 else nextId
  }

  /** The first node with the fewest cached records. */
  function LeastLoaded(ns: seq<Node>): (i: nat)
    requires ns != []
    ensures i < |ns|
    ensures forall j :: 0 <= j < |ns| ==> ns[i].records <= ns[j].records
    ensures forall j :: 0 <= j < i ==> ns[i].records < ns[j].records
  {
    if |ns| == 1 then 0
    else
      var init := ns[..|ns| - 1];
      var b := LeastLoaded(init);
      assert forall j :: 0 <= j < |init| ==> init[j] == ns[j];
      if ns[|ns| - 1].records < ns[b].records then |ns| - 1 else b
  }

  // ----- creating one record -----

  /** A node refuses an id it already stores. */
  predicate CreateOneOk(store: Store, r: Record, o: CreateOutcome) {
    r.id !in store && o == Stored
  }

  function CreateOne(store: Store, r: Record, o: CreateOutcome): Store {
    if r.id !in store && (o == Stored || o == StoredButFailed) then store[r.id := r] else store
  }

  /** Creating a record under the next id on node i. */
  function CreateNext(c: State, i: nat, rec: Record, o: CreateOutcome): (State, bool)
    requires i < |c.nodes|
  {
    var n, r := c.nodes[i], rec.(id := c.nextId);
    var n' := n.(store := CreateOne(n.store, r, o));
    if CreateOneOk(n.store, r, o) then
      (c.(nextId := c.nextId + 1,
          nodes := c.nodes[i := n'.(records := n.records + 1, nextRecordId := c.nextId + 1)]), true)
    else (c.(nodes := c.nodes[i := n']), false)
  }

  /** CreateRecord: the next id, on the least loaded node. */
  ghost function CreateRecord(c: State, rec: Record, o: CreateOutcome): (State, bool) {
    if c.nodes == [] then (c, false) else CreateNext(c, LeastLoaded(c.nodes), rec, o)
  }

  /** Some node that answers the existence query holds the id. */
  ghost predicate Reported(ns: seq<Node>, id: nat, answers: nat -> bool) {
    exists i :: 0 <= i < |ns| && answers(i) && id in ns[i].store
  }

  /** Creating a record with its own id on node i, and raising the next ids past it. */
  function CreateAt(c: State, i: nat, r: Record, o: CreateOutcome): (State, bool)
    requires i < |c.nodes|
  {
    var n := c.nodes[i];
    var n' := n.(store := CreateOne(n.store, r, o));
    if CreateOneOk(n.store, r, o) then
      var next := if n.nextRecordId <= r.id then r.id + 1 else n.nextRecordId;
      (c.(nodes := c.nodes[i := n'.(records := n.records + 1, nextRecordId := next)],
          nextId := if c.nextId < next then next else c.nextId), true)
    else (c.(nodes := c.nodes[i := n']), false)
  }

  /** CreateRecordWithId: refuse a reported id, else create on the least loaded node. */
  ghost function CreateRecordWithId(c: State, r: Record, answers: nat -> bool, o: CreateOutcome): (State, bool) {
    if c.nodes == [] || Reported(c.nodes, r.id, answers) then (c, false)
    else CreateAt(c, LeastLoaded(c.nodes), r, o)
  }

  // ----- creating a batch -----

  function MaxId(rs: seq<Record>): (m: nat)
    ensures forall r :: r in rs ==> r.id <= m
  {
    if rs == [] then 0
    else
      var m, r := MaxId(rs[..|rs| - 1]), rs[|rs| - 1];
      assert rs == rs[..|rs| - 1] + [r];
      if r.id > m then r.id else m
  }

  lemma {:induction false} MaxIdIsHighest(rs: seq<Record>, top: Record)
    requires top in rs && forall r :: r in rs ==> r.id <= top.id
    ensures MaxId(rs) == top.id
  {
    MaxIdAttained(rs);
  }

  lemma {:induction false} MaxIdAttained(rs: seq<Record>)
    ensures MaxId(rs) == 0 || exists r :: r in rs && r.id == MaxId(rs)
  {
    if rs != [] {
      MaxIdAttained(rs[..|rs| - 1]);
      assert rs == rs[..|rs| - 1] + [rs[|rs| - 1]];
    }
  }

  /** The `creator` closure: one batch on one node. */
  function Creator(c: State, i: nat, rs: seq<Record>, o: CreateOutcome): (r: (State, bool))
    requires i < |c.nodes|
    ensures |r.0.nodes| == |c.nodes|
    ensures r.1 <==> o == Stored
  {
    var n := c.nodes[i];
    var n' := n.(store := StoreMany(n.store, rs, o));
    if o != Stored then (c.(nodes := c.nodes[i := n']), false)
    else
      var maxId := MaxId(rs);
      var low := n.nextRecordId <= maxId;
      (c.(nodes := c.nodes[i := n'.(records := n.records + |rs|,
                                    nextRecordId := if low then maxId + 1 else n.nextRecordId)],
          nextId := if low then SetNextIdIfHigher(c.nextId, maxId + 1) else c.nextId), true)
  }

  /** A slice some node accepted. */
  datatype Placement = Placement(node: nat, records: seq<Record>)

  /** Progress of the splitting loop: the records before `start` have been accepted. */
  datatype Progress = Progress(c: State, start: nat, last: Option<nat>, placed: seq<Placement>)

  lemma {:induction false} SharesGrow(total: nat, n: nat, k: nat)
    requires n > 0 && k <= n
    ensures TargetSum(total, n, k) <= total
    ensures k == n ==> TargetSum(total, n, k) == total
    decreases n - k
  {
    hide Target;
    if k == n {
      TargetsAddUp(total, n);
    } else {
      SharesGrow(total, n, k + 1);
    }
  }

  /** The first k nodes have been offered their share, plus whatever the nodes before them did not accept. */
  ghost function Spread(c: State, recs: seq<Record>, outs: nat -> CreateOutcome, k: nat): (p: Progress)
    requires k <= |c.nodes| && c.nodes != []
    ensures |p.c.nodes| == |c.nodes|
    ensures p.start <= TargetSum(|recs|, |c.nodes|, k) <= |recs|
    ensures p.last.Some? ==> p.last.value < k
  {
    SharesGrow(|recs|, |c.nodes|, k);
    if k == 0 then Progress(c, 0, None, [])
    else
      var p := Spread(c, recs, outs, k - 1);
      var end := TargetSum(|recs|, |c.nodes|, k);
      var slice := recs[p.start..end];
      var (c', ok) := Creator(p.c, k - 1, slice, outs(k - 1));
      if ok then Progress(c', end, Some(k - 1), p.placed + [Placement(k - 1, slice)])
      else p.(c := c')
  }

  lemma {:induction false} SpreadZero(c: State, recs: seq<Record>, outs: nat -> CreateOutcome)
    requires c.nodes != []
    ensures Spread(c, recs, outs, 0) == Progress(c, 0, None, [])
  {
  }

  /** One more iteration of the splitting loop. */
  lemma {:induction false} SpreadNext(c: State, recs: seq<Record>, outs: nat -> CreateOutcome, k: nat, end: nat)
    requires c.nodes != [] && k < |c.nodes| && end == TargetSum(|recs|, |c.nodes|, k + 1)
    ensures var p := Spread(c, recs, outs, k);
            var p' := Spread(c, recs, outs, k + 1);
      && p.start <= end <= |recs|
      && var slice := recs[p.start..end];
         var (c', ok) := Creator(p.c, k, slice, outs(k));
         p' == if ok then Progress(c', end, Some(k), p.placed + [Placement(k, slice)]) else p.(c := c')
  {
    hide Creator, Target;
    SharesGrow(|recs|, |c.nodes|, k + 1);
  }

  function IdsOf(recs: seq<Record>): seq<nat> {
    seq(|recs|, i requires 0 <= i < |recs| => recs[i].id)
  }

  /** CreateRecordsWithId: split over the nodes, hand the rest to the last node that accepted, or roll back. */
  ghost function CreateRecordsWithId(c: State, recs: seq<Record>, outs: nat -> CreateOutcome,
                                     fallback: CreateOutcome, pf: PurgeFaults, faults: Faults): (State, bool)
  {
    if c.nodes == [] then (c, false)
    else
      var p := Spread(c, recs, outs, |c.nodes|);
      if p.last.None? then (p.c, false)
      else if p.start == |recs| then (Balanced(p.c, faults), true)
      else
        var (c', ok) := Creator(p.c, p.last.value, recs[p.start..], fallback);
        if ok then (Balanced(c', faults), true)
        else (DeleteRecords(c', IdsOf(recs), pf, faults).0, false)
  }

  /** Every slice that was accepted, the fallback's last. */
  ghost function Placements(c: State, recs: seq<Record>, outs: nat -> CreateOutcome): seq<Placement>
    requires c.nodes != []
  {
    var p := Spread(c, recs, outs, |c.nodes|);
    if p.last.None? || p.start == |recs| then p.placed
    else p.placed + [Placement(p.last.value, recs[p.start..])]
  }

  function Joined(ps: seq<Placement>): seq<Record> {
    if ps == [] then [] else Joined(ps[..|ps| - 1]) + ps[|ps| - 1].records
  }

  ghost function Balanced(c: State, faults: Faults): State {
    c.(nodes := BalanceNodes(c.nodes, faults))
  }

  // ----- deleting -----

  function IdSet(ids: seq<nat>): set<nat> {
    set id | id in ids
  }

  /** UpdateStatus: the cached status becomes what the node reports, if it answers. */
  function Refreshed(n: Node, answered: bool): Node {
    if answered then n.(records := |n.store|, nextRecordId := n.storeNext) else n
  }

  function Purged(n: Node, ids: set<nat>, applied: bool): Node {
    if applied then n.(store := n.store - ids) else n
  }

  function PurgeAll(ns: seq<Node>, ids: set<nat>, pf: PurgeFaults): (ns': seq<Node>)
    ensures |ns'| == |ns|
  {
    seq(|ns|, i requires 0 <= i < |ns| => Refreshed(Purged(ns[i], ids, pf.deleted(i)), pf.informed(i)))
  }

  function RaiseAll(nextId: nat, ns: seq<Node>): (n: nat)
    ensures nextId <= n
    ensures forall i :: 0 <= i < |ns| ==> ns[i].nextRecordId < n
    ensures n == nextId || exists i :: 0 <= i < |ns| && n == ns[i].nextRecordId + 1
  {
    if ns == [] then nextId
    else SetNextIdIfHigher(RaiseAll(nextId, ns[..|ns| - 1]), ns[|ns| - 1].nextRecordId)
  }

  lemma {:induction false} RaiseNone(nextId: nat, ns: seq<Node>)
    ensures RaiseAll(nextId, ns[..0]) == nextId
  {
  }

  lemma {:induction false} RaiseOneMore(nextId: nat, ns: seq<Node>, i: nat)
    requires i < |ns|
    ensures RaiseAll(nextId, ns[..i + 1]) == SetNextIdIfHigher(RaiseAll(nextId, ns[..i]), ns[i].nextRecordId)
  {
    assert ns[..i + 1][..i] == ns[..i];
  }

  /** DeleteRecords: delete everywhere, refresh, balance, and compare the totals. */
  ghost function DeleteRecords(c: State, ids: seq<nat>, pf: PurgeFaults, faults: Faults): (State, bool) {
    var ns := PurgeAll(c.nodes, IdSet(ids), pf);
    var c' := Balanced(c.(nodes := ns, nextId := RaiseAll(c.nextId, ns)), faults);
    (c', |ids| == Sub64(Total(c.nodes), Total(c'.nodes)))
  }

  /** How the RPC of a single update or delete ended on one node, as far as the cluster is concerned: the node
      answered, or it failed or was cancelled and the node had acted nevertheless or not. */
  datatype SingleOutcome = Answered | Unanswered(applied: bool)

  predicate Acts(o: SingleOutcome) {
    o.Answered? || o.applied
  }

  /** DeleteRecord on one node: its counter drops when it answers. */
  function DeleteOne(n: Node, id: nat, o: SingleOutcome): Node {
    if id !in n.store || !Acts(o) then n
    else if o.Answered? then n.(store := n.store - {id}, records := Sub64(n.records, 1))
    else n.(store := n.store - {id})
  }

  function DeleteRecord(c: State, id: nat, outs: nat -> SingleOutcome): State {
    c.(nodes := seq(|c.nodes|, i requires 0 <= i < |c.nodes| => DeleteOne(c.nodes[i], id, outs(i))))
  }

  function UpdateOne(n: Node, rec: Record, o: SingleOutcome): Node {
    if rec.id !in n.store || !Acts(o) then n
    else n.(store := n.store[rec.id := CopyFields(n.store[rec.id], rec)])
  }

  function UpdateRecord(c: State, rec: Record, outs: nat -> SingleOutcome): State {
    c.(nodes := seq(|c.nodes|, i requires 0 <= i < |c.nodes| => UpdateOne(c.nodes[i], rec, outs(i))))
  }

  // ----- nodes -----

  function UpdateNodes(c: State, answered: nat -> bool): State {
    c.(nodes := seq(|c.nodes|, i requires 0 <= i < |c.nodes| => Refreshed(c.nodes[i], answered(i))))
  }

  /** AddNode: a node reporting its own count and next id joins, then the load is levelled. */
  ghost function AddNode(c: State, store: Store, storeNext: nat, faults: Faults): State {
    var n := Node(c.nextNodeId, store, storeNext, |store|, storeNext);
    Balanced(State(c.nodes + [n], SetNextIdIfHigher(c.nextId, storeNext), c.nextNodeId + 1), faults)
  }

  /** Index of the first node with the given id, or the number of nodes. */
  function FindNode(ns: seq<Node>, id: nat, k: nat): (i: nat)
    requires k <= |ns|
    ensures k <= i <= |ns|
    ensures i < |ns| ==> ns[i].id == id
    ensures forall j :: k <= j < i ==> ns[j].id != id
    decreases |ns| - k
  {
    if k == |ns| || ns[k].id == id then k else FindNode(ns, id, k + 1)
  }

  datatype Removal =
    | Panicked          // no nodes at all: the handler dereferences a nil node
    | NoSuchNode
    | Removed(c: State, leaving: Node)

  /** The transfers of DeleteNode: survivor i gets the i-th share from the leaving node at index n. */
  function DrainMoves(total: nat, n: nat): seq<Move> {
    if n == 0 then [] else seq(n, i requires 0 <= i < n => Move(n, i, Target(total, n, i)))
  }

  /** Swap-remove: the last node takes the freed slot. */
  function SwapRemove(ns: seq<Node>, i: nat): (rest: seq<Node>)
    requires i < |ns|
    ensures |rest| == |ns| - 1
  {
    ns[i := ns[|ns| - 1]][..|ns| - 1]
  }

  ghost function Drained(rest: seq<Node>, leaving: Node, faults: Faults): (ns: seq<Node>)
    ensures |ns| == |rest| + 1
  {
    if leaving.records > 0 then RunMoves(rest + [leaving], DrainMoves(leaving.records, |rest|), faults, 0)
    else rest + [leaving]
  }

  ghost function DeleteNode(c: State, id: nat, faults: Faults): Removal {
    if c.nodes == [] then Panicked
    else
      var i := FindNode(c.nodes, id, 0);
      if i == |c.nodes| then NoSuchNode
      else
        var ns := Drained(SwapRemove(c.nodes, i), c.nodes[i], faults);
        Removed(c.(nodes := ns[..|ns| - 1]), ns[|ns| - 1])
  }
}
