/** What one handler does to the cluster's records, counts and ids. */
module ClusterSteps {
  import opened Records
  import opened Nodes
  import opened NodeLists
  import opened Balance
  import opened Cluster

  ghost predicate DistinctNodeIds(c: State) {
    && (forall i :: 0 <= i < |c.nodes| ==> c.nodes[i].id < c.nextNodeId)
    && (forall i, j :: 0 <= i < j < |c.nodes| ==> c.nodes[i].id != c.nodes[j].id)
  }

  /** Nodes hold pairwise disjoint ids, all below the master's next id, which no reported or cached next id
      exceeds; node ids are distinct and below the next node id. */
  ghost predicate Inv(c: State) {
    && AllKeyed(c.nodes)
    && PairwiseDisjoint(c.nodes)
    && Below(c.nodes, c.nextId)
    && DistinctNodeIds(c)
  }

  // ----- a batch of fresh records on one node -----

  ghost predicate Fresh(ns: seq<Node>, rs: seq<Record>) {
    DistinctIds(rs) && Ids(rs) !! AllIds(ns)
  }

  lemma FreshForNode(ns: seq<Node>, i: nat, ids: set<nat>)
    requires i < |ns| && ids !! AllIds(ns)
    ensures ids !! ns[i].store.Keys
  {
  }

  lemma {:induction false} AddedStaysDisjoint(ns: seq<Node>, i: nat, rs: seq<Record>, n: Node)
    requires i < |ns| && AllKeyed(ns) && PairwiseDisjoint(ns) && Fresh(ns, rs)
    requires n.store == Insert(ns[i].store, rs)
    ensures AllKeyed(ns[i := n]) && PairwiseDisjoint(ns[i := n])
  {
    InsertKeys(ns[i].store, rs);
    var ns' := ns[i := n];
    forall j, k | 0 <= j < k < |ns|
      ensures DisjointNodes(ns'[j], ns'[k])
    {
      assert DisjointNodes(ns[j], ns[k]);
      FreshForNode(ns, j, Ids(rs));
      FreshForNode(ns, k, Ids(rs));
    }
  }

  lemma {:induction false} AddedIds(ns: seq<Node>, i: nat, rs: seq<Record>, n: Node)
    requires i < |ns| && n.store == Insert(ns[i].store, rs)
    ensures AllIds(ns[i := n]) == AllIds(ns) + Ids(rs)
  {
    InsertKeys(ns[i].store, rs);
    var ns' := ns[i := n];
    forall id
      ensures id in AllIds(ns') <==> id in AllIds(ns) || id in Ids(rs)
    {
      if id in AllIds(ns) {
        var j :| 0 <= j < |ns| && id in ns[j].store.Keys;
        assert id in ns'[j].store.Keys;
      }
      if id in Ids(rs) {
        assert id in ns'[i].store.Keys;
      }
      if id in AllIds(ns') {
        var j :| 0 <= j < |ns| && id in ns'[j].store.Keys;
        if j != i { assert id in ns[j].store.Keys; } else { assert id in ns[i].store.Keys || id in Ids(rs); }
      }
    }
  }

  lemma {:induction false} AddedHolds(ns: seq<Node>, i: nat, rs: seq<Record>, n: Node, id: nat, r: Record)
    requires i < |ns| && Fresh(ns, rs) && n.store == Insert(ns[i].store, rs)
    ensures Holds(ns[i := n], id, r) <==> Holds(ns, id, r) || (r in rs && r.id == id)
  {
    InsertKeys(ns[i].store, rs);
    FreshForNode(ns, i, Ids(rs));
    var ns' := ns[i := n];
    if id in n.store {
      InsertLookup(ns[i].store, rs, id);
    }
    if Holds(ns, id, r) {
      var j :| 0 <= j < |ns| && Has(ns[j], id, r);
      FreshForNode(ns, j, Ids(rs));
      assert Has(ns'[j], id, r);
    }
    if r in rs && r.id == id {
      InsertFinds(ns[i].store, rs, r);
      assert Has(ns'[i], id, r);
    }
    if Holds(ns', id, r) {
      var j :| 0 <= j < |ns| && Has(ns'[j], id, r);
      if j != i { assert Has(ns[j], id, r); }
      else if id !in Ids(rs) { assert Has(ns[i], id, r); }
    }
  }

  lemma {:induction false} AddedLookup(ns: seq<Node>, i: nat, rs: seq<Record>, n: Node, id: nat)
    requires i < |ns| && AllAgree(ns) && AllAgree(ns[i := n]) && Fresh(ns, rs)
    requires n.store == Insert(ns[i].store, rs)
    requires id in Insert(Contents(ns), rs)
    ensures id in Contents(ns[i := n]) && Contents(ns[i := n])[id] == Insert(Contents(ns), rs)[id]
  {
    var r := Insert(Contents(ns), rs)[id];
    InsertLookup(Contents(ns), rs, id);
    ContentsHolds(ns, id, r);
    AddedHolds(ns, i, rs, n, id, r);
    ContentsHolds(ns[i := n], id, r);
  }

  lemma {:induction false} AddedContents(ns: seq<Node>, i: nat, rs: seq<Record>, n: Node)
    requires i < |ns| && AllAgree(ns) && AllAgree(ns[i := n]) && Fresh(ns, rs)
    requires n.store == Insert(ns[i].store, rs)
    ensures Contents(ns[i := n]) == Insert(Contents(ns), rs)
  {
    var m, m' := Insert(Contents(ns), rs), Contents(ns[i := n]);
    assert m'.Keys == m.Keys by {
      AddedIds(ns, i, rs, n);
      InsertKeys(Contents(ns), rs);
    }
    forall id | id in m
      ensures m'[id] == m[id]
    {
      AddedLookup(ns, i, rs, n, id);
    }
    SameMap(m', m);
  }

  // ----- batches -----

  lemma {:induction false} SameNode(ns: seq<Node>, i: nat)
    requires i < |ns|
    ensures ns[i := ns[i]] == ns
  {
  }

  /** A batch of fresh records that was not applied, or was rolled back, leaves the cluster as it was. */
  lemma {:induction false} CreatorFails(c: State, i: nat, rs: seq<Record>, o: CreateOutcome)
    requires i < |c.nodes| && Ids(rs) !! AllIds(c.nodes) && (o == NotStored || o == RolledBack)
    ensures Creator(c, i, rs, o) == (c, false)
  {
    FreshForNode(c.nodes, i, Ids(rs));
    var n := c.nodes[i];
    assert n.store - Ids(rs) == n.store;
    assert n.(store := StoreMany(n.store, rs, o)) == n;
    SameNode(c.nodes, i);
  }

  lemma {:induction false} CreatorKeepsInv(c: State, i: nat, rs: seq<Record>)
    requires Inv(c) && i < |c.nodes| && Fresh(c.nodes, rs)
    ensures Inv(Creator(c, i, rs, Stored).0)
  {
    var c' := Creator(c, i, rs, Stored).0;
    AddedStaysDisjoint(c.nodes, i, rs, c'.nodes[i]);
    InsertKeys(c.nodes[i].store, rs);
    forall id | id in c'.nodes[i].store
      ensures id < c'.nextId
    {
      assert NodeBelow(c.nodes[i], c.nextId);
      assert id in c.nodes[i].store.Keys || exists r :: r in rs && r.id == id;
    }
    assert NodeBelow(c'.nodes[i], c'.nextId);
    forall j | 0 <= j < |c.nodes| && j != i
      ensures NodeBelow(c'.nodes[j], c'.nextId)
    {
      assert NodeBelow(c.nodes[j], c.nextId);
    }
  }

  lemma {:induction false} CreatorAdds(c: State, i: nat, rs: seq<Record>)
    requires Inv(c) && i < |c.nodes| && Fresh(c.nodes, rs)
    ensures var c' := Creator(c, i, rs, Stored).0;
      && Contents(c'.nodes) == Insert(Contents(c.nodes), rs)
      && AllIds(c'.nodes) == AllIds(c.nodes) + Ids(rs)
      && (AllAccurate(c.nodes) ==> AllAccurate(c'.nodes))
  {
    var c' := Creator(c, i, rs, Stored).0;
    AddedStaysDisjoint(c.nodes, i, rs, c'.nodes[i]);
    DisjointAgree(c.nodes);
    DisjointAgree(c'.nodes);
    AddedContents(c.nodes, i, rs, c'.nodes[i]);
    AddedIds(c.nodes, i, rs, c'.nodes[i]);
    FreshForNode(c.nodes, i, Ids(rs));
    InsertSize(c.nodes[i].store, rs);
    if AllAccurate(c.nodes) {
      assert Accurate(c.nodes[i]);
      assert Accurate(c'.nodes[i]);
    }
  }

  // ----- balance -----

  ghost predicate CleanFaults(faults: Faults) {
    forall i :: CleanTransfer(faults(i))
  }

  /** A balance whose failed creates were not applied and whose deletes were keeps the invariant and the records. */
  lemma {:induction false} BalancedKeepsAll(c: State, faults: Faults)
    requires Inv(c) && forall i :: CleanTransfer(faults(i))
    ensures Inv(Balanced(c, faults)) && AllIds(Balanced(c, faults).nodes) == AllIds(c.nodes)
    ensures Contents(Balanced(c, faults).nodes) == Contents(c.nodes)
  {
    hide BalanceNodes;
    BalanceLosesNoId(c.nodes, faults);
    DisjointAgree(c.nodes);
    BalanceKeepsRecords(c.nodes, faults);
    BalanceKeepsDisjoint(c.nodes, faults);
    BalanceStaysBelow(c.nodes, faults, c.nextId);
  }
}
