/** A node as the master sees it, the outcomes of its RPCs, and moving records between two nodes. */
module Nodes {
  import opened Records
  import opened Paging

  /** `store` and `storeNext` live on the node; `records` and `nextRecordId` are the master's cached status. */
  datatype Node = Node(
    id: nat,
    store: Store,
    storeNext: nat,
    records: nat,
    nextRecordId: nat)

  /** What a create RPC did and reported. Only `Stored` is reported as a success. */
  datatype CreateOutcome =
    | Stored
    | StoredButFailed  // applied, but the reply was lost
    | NotStored        // never applied
    | RolledBack       // a flush failed halfway: the node erased every id of the batch

  /** The RPC outcomes of one transfer; what the delete RPC reports is ignored, so only its effect is kept. */
  datatype TransferFaults = TransferFaults(listed: bool, create: CreateOutcome, deleted: bool)

  /** Unsigned 64-bit subtraction. */
  function Sub64(a: nat, b: nat): nat {
    if b <= a then a - b else (a - b) % TWO64
  }

  /** A node's record map after a batch create with the given outcome. */
  function StoreMany(store: Store, rs: seq<Record>, o: CreateOutcome): Store {
    match o
    case Stored | StoredButFailed => Insert(store, rs)
    case NotStored => store
    case RolledBack => store - Ids(rs)
  }

  /** The loop raising a cached NextRecordId past every listed id. */
  function RaiseNext(next: nat, rs: seq<Record>): (n: nat)
    ensures next <= n
    ensures forall r :: r in rs ==> r.id < n
    ensures n == next || exists r :: r in rs && n == r.id + 1
  {
    if rs == [] then next
    else
      var n := RaiseNext(next, rs[..|rs| - 1]);
      var r := rs[|rs| - 1];
      assert rs == rs[..|rs| - 1] + [r];
      if n <= r.id then r.id + 1 else n
  }

  /** Service.transfer: list on the donor, create on the receiver, delete on the donor, adjust both counters. */
  function Transfer(from: Node, to: Node, n: nat, f: TransferFaults): (Node, Node) {
    if !f.listed then (from, to)
    else
      var rs := Page(from.store, 1, n);
      var to' := to.(store := StoreMany(to.store, rs, f.create));
      if f.create != Stored then (from, to')
      else
        (from.(store := if f.deleted then from.store - Ids(rs) else from.store,
               records := Sub64(from.records, n)),
         to'.(records := to.records + n, nextRecordId := RaiseNext(to.nextRecordId, rs)))
  }

  // ----- what a transfer preserves -----

  ghost predicate Has(n: Node, id: nat, r: Record) {
    id in n.store && n.store[id] == r
  }

  /** Two nodes never hold different records under one id. */
  ghost predicate Agree(a: Node, b: Node) {
    forall id :: id in a.store && id in b.store ==> a.store[id] == b.store[id]
  }

  ghost predicate DisjointNodes(a: Node, b: Node) {
    a.store.Keys !! b.store.Keys
  }

  /** A failed create was not applied, and a successful one is followed by a delete that was. */
  predicate CleanTransfer(f: TransferFaults) {
    f.create != StoredButFailed && (f.create == Stored ==> f.deleted)
  }

  lemma FirstPageIds(m: Store, n: nat)
    requires Keyed(m)
    ensures Ids(Page(m, 1, n)) <= m.Keys
    ensures m != map[] ==> Ids(Page(m, 1, n)) != {}
  {
    hide Page;
    FirstPage(m, n);
    if m != map[] {
      KeysNonEmpty(m);
      assert |m| == |m.Keys|;
      assert Page(m, 1, n)[0].id in Ids(Page(m, 1, n));
    }
  }

  lemma StoreManyKeys(store: Store, rs: seq<Record>, o: CreateOutcome)
    ensures StoreMany(store, rs, o).Keys ==
            if o == Stored || o == StoredButFailed then store.Keys + Ids(rs)
            else if o == NotStored then store.Keys
            else store.Keys - Ids(rs)
  {
    InsertKeys(store, rs);
  }

  /** The id sets of both nodes after a transfer. */
  lemma TransferIds(from: Node, to: Node, n: nat, f: TransferFaults)
    ensures var (from', to') := Transfer(from, to, n, f);
            var moved := Ids(Page(from.store, 1, n));
      && from'.store.Keys == (if f.listed && f.create == Stored && f.deleted then from.store.Keys - moved
                              else from.store.Keys)
      && to'.store.Keys == (if !f.listed || f.create == NotStored then to.store.Keys
                            else if f.create == RolledBack then to.store.Keys - moved
                            else to.store.Keys + moved)
  {
    hide Page;
    StoreManyKeys(to.store, Page(from.store, 1, n), f.create);
  }

  /** Whatever fails, every id on one of the two nodes is still on one of them, and none appears. */
  lemma TransferLosesNoId(from: Node, to: Node, n: nat, f: TransferFaults)
    requires Keyed(from.store)
    ensures var (from', to') := Transfer(from, to, n, f);
            from'.store.Keys + to'.store.Keys == from.store.Keys + to.store.Keys
  {
    hide Page;
    FirstPageIds(from.store, n);
    TransferIds(from, to, n, f);
  }

  /** The batch create of listed records, seen from one id: if the receiver now has it, it had it, or the
      donor has it. */
  lemma StoreManySource(from: Node, to: Node, n: nat, o: CreateOutcome, id: nat)
    requires Keyed(from.store) && Agree(from, to)
    requires id in StoreMany(to.store, Page(from.store, 1, n), o)
    ensures var r := StoreMany(to.store, Page(from.store, 1, n), o)[id]; Has(from, id, r) || Has(to, id, r)
    ensures id in from.store ==> StoreMany(to.store, Page(from.store, 1, n), o)[id] == from.store[id]
  {
    hide Page;
    var rs := Page(from.store, 1, n);
    FirstPage(from.store, n);
    if o == Stored || o == StoredButFailed {
      InsertLookup(to.store, rs, id);
    }
  }

  /** Whatever fails, exactly the same records are held by the two nodes together. */
  lemma TransferKeepsRecords(from: Node, to: Node, n: nat, f: TransferFaults, id: nat, r: Record)
    requires Keyed(from.store) && Agree(from, to)
    ensures var (from', to') := Transfer(from, to, n, f);
            Has(from, id, r) || Has(to, id, r) <==> Has(from', id, r) || Has(to', id, r)
  {
    hide Page;
    var (from', to') := Transfer(from, to, n, f);
    var rs := Page(from.store, 1, n);
    TransferLosesNoId(from, to, n, f);
    if f.listed && id in to'.store {
      StoreManySource(from, to, n, f.create, id);
    }
  }

  /** Disjoint nodes stay disjoint exactly when nothing was listed, or the outcomes are clean. */
  lemma TransferDisjointIff(from: Node, to: Node, n: nat, f: TransferFaults)
    requires Keyed(from.store) && DisjointNodes(from, to)
    ensures var (from', to') := Transfer(from, to, n, f);
            DisjointNodes(from', to') <==> !f.listed || from.store == map[] || CleanTransfer(f)
  {
    hide Page;
    FirstPageIds(from.store, n);
    TransferIds(from, to, n, f);
  }

  /** Cached counts match what the nodes hold. */
  ghost predicate Accurate(n: Node) {
    n.records == |n.store|
  }

  predicate AllOk(f: TransferFaults) {
    f == TransferFaults(true, Stored, true)
  }

  /** A successful transfer of at most what an accurately counted donor holds moves exactly that many, and keeps both
      counts right. */
  lemma TransferMoves(from: Node, to: Node, n: nat, f: TransferFaults)
    requires Keyed(from.store) && DisjointNodes(from, to) && AllOk(f)
    requires Accurate(from) && Accurate(to) && n <= from.records
    requires n > 0 || from.records == 0
    ensures var (from', to') := Transfer(from, to, n, f);
      && Accurate(from') && Accurate(to')
      && from'.records == from.records - n && to'.records == to.records + n
  {
    hide Page;
    var rs := Page(from.store, 1, n);
    FirstPage(from.store, n);
    IdsSize(rs);
    RemoveSize(from.store, Ids(rs));
    InsertSize(to.store, rs);
  }

  /** What the subtraction means: adding back gives the number again, up to a multiple of 2^64. */
  lemma Sub64Is(a: nat, b: nat)
    requires a < TWO64 && b < TWO64
    ensures Sub64(a, b) < TWO64 && (Sub64(a, b) + b) % TWO64 == a
  {
    if a < b {
      assert (a - b) % TWO64 == a - b + TWO64;
      assert (a + TWO64) % TWO64 == a;
    }
  }

  /** The records a transfer moves are those with the lowest ids of the donor, and the receiver's cached next id becomes
      the least one above them that is not below what it was. */
  lemma TransferMovesLowest(from: Node, to: Node, n: nat, f: TransferFaults, id: nat, kept: nat)
    requires Keyed(from.store) && DisjointNodes(from, to) && f.listed && f.create == Stored && f.deleted
    requires id in from.store
    ensures var (from', to') := Transfer(from, to, n, f);
      && (id in to'.store <==> id !in from'.store)
      && (id in to'.store && kept in from'.store ==> id < kept)
      && (id in to'.store ==> id < to'.nextRecordId)
      && to.nextRecordId <= to'.nextRecordId
      && (to'.nextRecordId == to.nextRecordId || (to'.nextRecordId >= 1 && to'.nextRecordId - 1 in to'.store))
  {
    hide Page;
    var rs := Page(from.store, 1, n);
    LowestFirst(from.store, n, kept);
    FirstPageIds(from.store, n);
    TransferIds(from, to, n, f);
    assert forall r :: r in rs ==> r.id in Ids(rs);
  }
}
