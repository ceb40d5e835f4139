/** What a list of nodes holds together, and how that survives a transfer between two of them. */
module NodeLists {
  import opened Records
  import opened Paging
  import opened Nodes

  ghost predicate AllKeyed(ns: seq<Node>) {
    forall i :: 0 <= i < |ns| ==> Keyed(ns[i].store)
  }

  ghost predicate AllAgree(ns: seq<Node>) {
    forall i, j :: 0 <= i < |ns| && 0 <= j < |ns| ==> Agree(ns[i], ns[j])
  }

  ghost predicate PairwiseDisjoint(ns: seq<Node>) {
    forall i, j :: 0 <= i < j < |ns| ==> DisjointNodes(ns[i], ns[j])
  }

  ghost predicate AllAccurate(ns: seq<Node>) {
    forall i :: 0 <= i < |ns| ==> Accurate(ns[i])
  }

  ghost predicate HeldId(ns: seq<Node>, id: nat) {
    exists i :: 0 <= i < |ns| && id in ns[i].store
  }

  ghost predicate Holds(ns: seq<Node>, id: nat, r: Record) {
    exists i :: 0 <= i < |ns| && Has(ns[i], id, r)
  }

  ghost function AllIds(ns: seq<Node>): set<nat> {
    set i, id | 0 <= i < |ns| && id in ns[i].store.Keys :: id
  }

  ghost function Holder(ns: seq<Node>, id: nat): (i: nat)
    requires id in AllIds(ns)
    ensures i < |ns| && id in ns[i].store
  {
    var i :| 0 <= i < |ns| && id in ns[i].store;
    i
  }

  /** The union of the node maps; only meaningful when the nodes agree. */
  ghost function Contents(ns: seq<Node>): Store {
    map id | id in AllIds(ns) :: ns[Holder(ns, id)].store[id]
  }

  lemma AllIdsIsHeld(ns: seq<Node>, id: nat)
    ensures id in AllIds(ns) <==> HeldId(ns, id)
  {
  }

  lemma ContentsHolds(ns: seq<Node>, id: nat, r: Record)
    requires AllAgree(ns)
    ensures Holds(ns, id, r) <==> id in Contents(ns) && Contents(ns)[id] == r
  {
  }

  ghost predicate SameHoldings(a: seq<Node>, b: seq<Node>) {
    forall id, r :: Holds(a, id, r) <==> Holds(b, id, r)
  }

  lemma SameContents(a: seq<Node>, b: seq<Node>)
    requires AllAgree(a) && AllAgree(b) && SameHoldings(a, b)
    ensures Contents(a) == Contents(b)
  {
    forall id | id in Contents(a)
      ensures id in Contents(b) && Contents(b)[id] == Contents(a)[id]
    {
      ContentsHolds(a, id, Contents(a)[id]);
      ContentsHolds(b, id, Contents(a)[id]);
    }
    forall id | id in Contents(b)
      ensures id in Contents(a)
    {
      ContentsHolds(b, id, Contents(b)[id]);
      ContentsHolds(a, id, Contents(b)[id]);
    }
  }

  lemma DisjointAgree(ns: seq<Node>)
    requires PairwiseDisjoint(ns)
    ensures AllAgree(ns)
  {
  }

  // ----- one transfer inside a list -----

  /** The list after a transfer between two of its nodes. */
  function Moved(ns: seq<Node>, from: nat, to: nat, n: nat, f: TransferFaults): (ns': seq<Node>)
    requires from < |ns| && to < |ns| && from != to
    ensures |ns'| == |ns|
  {
    var (a, b) := Transfer(ns[from], ns[to], n, f);
    ns[from := a][to := b]
  }

  lemma MovedKeyed(ns: seq<Node>, from: nat, to: nat, n: nat, f: TransferFaults)
    requires from < |ns| && to < |ns| && from != to && AllKeyed(ns)
    ensures AllKeyed(Moved(ns, from, to, n, f))
  {
    hide Page;
    InsertKeys(ns[to].store, Page(ns[from].store, 1, n));
  }

  lemma MovedLosesNoId(ns: seq<Node>, from: nat, to: nat, n: nat, f: TransferFaults)
    requires from < |ns| && to < |ns| && from != to && AllKeyed(ns)
    ensures AllIds(Moved(ns, from, to, n, f)) == AllIds(ns)
  {
    hide Transfer;
    var ns' := Moved(ns, from, to, n, f);
    TransferLosesNoId(ns[from], ns[to], n, f);
    forall id
      ensures id in AllIds(ns') <==> id in AllIds(ns)
    {
      if id in AllIds(ns) {
        var i :| 0 <= i < |ns| && id in ns[i].store.Keys;
        if i != from && i != to { assert id in ns'[i].store.Keys; }
        else { assert id in ns'[from].store.Keys + ns'[to].store.Keys; }
      }
      if id in AllIds(ns') {
        var i :| 0 <= i < |ns| && id in ns'[i].store.Keys;
        if i != from && i != to { assert id in ns[i].store.Keys; }
        else { assert id in ns[from].store.Keys + ns[to].store.Keys; }
      }
    }
  }

  lemma MovedHolds(ns: seq<Node>, from: nat, to: nat, n: nat, f: TransferFaults, id: nat, r: Record)
    requires from < |ns| && to < |ns| && from != to && AllKeyed(ns) && AllAgree(ns)
    ensures Holds(Moved(ns, from, to, n, f), id, r) <==> Holds(ns, id, r)
  {
    hide Transfer;
    var ns' := Moved(ns, from, to, n, f);
    assert Agree(ns[from], ns[to]);
    TransferKeepsRecords(ns[from], ns[to], n, f, id, r);
    if Holds(ns, id, r) {
      var i :| 0 <= i < |ns| && Has(ns[i], id, r);
      if i != from && i != to { assert Has(ns'[i], id, r); }
      else { assert Has(ns'[from], id, r) || Has(ns'[to], id, r); }
    }
    if Holds(ns', id, r) {
      var i :| 0 <= i < |ns'| && Has(ns'[i], id, r);
      if i != from && i != to { assert Has(ns[i], id, r); }
      else { assert Has(ns[from], id, r) || Has(ns[to], id, r); }
    }
  }

  /** Agreement is about what is held: if any two holders of an id agree before, they agree after. */
  lemma MovedAgrees(ns: seq<Node>, from: nat, to: nat, n: nat, f: TransferFaults)
    requires from < |ns| && to < |ns| && from != to && AllKeyed(ns) && AllAgree(ns)
    ensures AllAgree(Moved(ns, from, to, n, f))
    ensures SameHoldings(Moved(ns, from, to, n, f), ns)
  {
    hide Transfer;
    var ns' := Moved(ns, from, to, n, f);
    forall id, r
      ensures Holds(ns', id, r) <==> Holds(ns, id, r)
    {
      MovedHolds(ns, from, to, n, f, id, r);
    }
    forall i, j | 0 <= i < |ns'| && 0 <= j < |ns'|
      ensures Agree(ns'[i], ns'[j])
    {
      forall id | id in ns'[i].store && id in ns'[j].store
        ensures ns'[i].store[id] == ns'[j].store[id]
      {
        assert Has(ns'[i], id, ns'[i].store[id]) && Has(ns'[j], id, ns'[j].store[id]);
        assert Holds(ns, id, ns'[i].store[id]) && Holds(ns, id, ns'[j].store[id]);
        ContentsHolds(ns, id, ns'[i].store[id]);
        ContentsHolds(ns, id, ns'[j].store[id]);
      }
    }
  }

  lemma MovedDisjoint(ns: seq<Node>, from: nat, to: nat, n: nat, f: TransferFaults)
    requires from < |ns| && to < |ns| && from != to && AllKeyed(ns) && PairwiseDisjoint(ns)
    requires CleanTransfer(f)
    ensures PairwiseDisjoint(Moved(ns, from, to, n, f))
  {
    hide Transfer;
    var ns' := Moved(ns, from, to, n, f);
    var lo, hi := if from < to then from else to, if from < to then to else from;
    assert DisjointNodes(ns[lo], ns[hi]);
    TransferDisjointIff(ns[from], ns[to], n, f);
    TransferLosesNoId(ns[from], ns[to], n, f);
    var both := ns[from].store.Keys + ns[to].store.Keys;
    assert ns'[from].store.Keys <= both && ns'[to].store.Keys <= both;
    forall i, j | 0 <= i < j < |ns|
      ensures DisjointNodes(ns'[i], ns'[j])
    {
      assert DisjointNodes(ns[i], ns[j]);
      OthersDisjoint(ns, from, i);
      OthersDisjoint(ns, from, j);
      OthersDisjoint(ns, to, i);
      OthersDisjoint(ns, to, j);
    }
  }

  lemma OthersDisjoint(ns: seq<Node>, i: nat, j: nat)
    requires i < |ns| && j < |ns| && PairwiseDisjoint(ns)
    ensures i != j ==> DisjointNodes(ns[i], ns[j])
  {
  }
}
