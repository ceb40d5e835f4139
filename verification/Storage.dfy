/** A node's record index: the map in memory, the data files behind it, and the next id (node/storage/index.go).
    A flush either writes the whole file or leaves it as it was; its outcome is a parameter. */
module Storage {
  import opened Wrappers
  import opened Records
  import opened Paging
  import Nodes
  import Cluster

  /** `disk` holds one file per id, read back as the record that was flushed to it. */
  datatype Snapshot = Snapshot(index: Store, nextID: nat, disk: Store)

  // ----- the operations -----

  function Create(s: Snapshot, rec: Record, flushed: bool): (r: (Snapshot, bool)) {
    var stored := rec.(id := s.nextID);
    if s.nextID in s.index || !flushed then (s, false)
    else (Snapshot(s.index[s.nextID := stored], s.nextID + 1, s.disk[s.nextID := stored]), true)
  }

  function CreateWithId(s: Snapshot, rec: Record, flushed: bool): (r: (Snapshot, bool)) {
    if rec.id in s.index || !flushed then (s, false)
    else (s.(index := s.index[rec.id := rec], disk := s.disk[rec.id := rec]), true)
  }

  /** The flush of record `failAt`, if there is one, is the first to fail; then every id of the batch is erased. */
  function CreateMany(s: Snapshot, recs: seq<Record>, failAt: nat): (r: (Snapshot, bool)) {
    if failAt < |recs| then
      (s.(index := Insert(s.index, recs[..failAt]) - Ids(recs), disk := Insert(s.disk, recs[..failAt]) - Ids(recs)),
       false)
    else (s.(index := Insert(s.index, recs), disk := Insert(s.disk, recs)), true)
  }

  /** The stored record is changed in memory before it is flushed. */
  function Update(s: Snapshot, rec: Record, flushed: bool): (r: (Snapshot, bool)) {
    if rec.id !in s.index then (s, false)
    else
      var stored := CopyFields(s.index[rec.id], rec);
      (s.(index := s.index[rec.id := stored], disk := if flushed then s.disk[rec.id := stored] else s.disk), flushed)
  }

  function Delete(s: Snapshot, id: nat): Snapshot {
    if id in s.index then s.(index := s.index - {id}, disk := s.disk - {id}) else s
  }

  function DeleteMany(s: Snapshot, ids: seq<nat>): Snapshot {
    if ids == [] then s else Delete(DeleteMany(s, ids[..|ids| - 1]), ids[|ids| - 1])
  }

  /** Loading the files in the order they were listed. */
  function LoadFiles(s: Snapshot, files: seq<Record>): Snapshot {
    if files == [] then s.(nextID := 1)
    else
      var t, r := LoadFiles(s, files[..|files| - 1]), files[|files| - 1];
      t.(index := t.index[r.id := r], nextID := if r.id >= t.nextID then r.id + 1 else t.nextID)
  }

  // ----- memory and disk -----

  /** Memory and disk hold the same records, each filed under its id. */
  ghost predicate Synced(s: Snapshot) {
    s.index == s.disk && Keyed(s.index)
  }

  datatype Op =
    | Created(rec: Record, flushed: bool)
    | CreatedWithId(rec: Record, flushed: bool)
    | CreatedMany(recs: seq<Record>, failAt: nat)
    | Updated(rec: Record, flushed: bool)
    | Deleted(id: nat)
    | DeletedMany(ids: seq<nat>)

  function Apply(s: Snapshot, op: Op): Snapshot {
    match op
    case Created(rec, flushed) => Create(s, rec, flushed).0
    case CreatedWithId(rec, flushed) => CreateWithId(s, rec, flushed).0
    case CreatedMany(recs, failAt) => CreateMany(s, recs, failAt).0
    case Updated(rec, flushed) => Update(s, rec, flushed).0
    case Deleted(id) => Delete(s, id)
    case DeletedMany(ids) => DeleteMany(s, ids)
  }

  /** An update keeps memory and disk equal exactly when it is flushed, finds nothing, or changes nothing. */
  ghost predicate UpdateReachesDisk(s: Snapshot, rec: Record, flushed: bool) {
    flushed || rec.id !in s.index || CopyFields(s.index[rec.id], rec) == s.index[rec.id]
  }

  lemma UpdateSyncedIff(s: Snapshot, rec: Record, flushed: bool)
    requires Synced(s)
    ensures Synced(Update(s, rec, flushed).0) <==> UpdateReachesDisk(s, rec, flushed)
  {
  }

  /** What an update leaves in memory, and on disk when it is flushed; other records stay. */
  lemma UpdateOverlays(s: Snapshot, rec: Record, flushed: bool)
    requires rec.id in s.index
    ensures var (t, ok) := Update(s, rec, flushed);
      && ok == flushed && t.nextID == s.nextID
      && t.index.Keys == s.index.Keys && Overlaid(s.index[rec.id], rec, t.index[rec.id])
      && (forall id :: id in s.index && id != rec.id ==> t.index[id] == s.index[id])
      && (flushed ==> t.disk == s.disk[rec.id := t.index[rec.id]]) && (!flushed ==> t.disk == s.disk)
  {
  }

  /** A create fails exactly when its id is stored or its flush fails, and then changes nothing; a missing record is not
      updated. */
  lemma FailureChangesNothing(s: Snapshot, rec: Record, flushed: bool)
    ensures Create(s, rec, flushed).1 <==> s.nextID !in s.index && flushed
    ensures CreateWithId(s, rec, flushed).1 <==> rec.id !in s.index && flushed
    ensures !Create(s, rec, flushed).1 ==> Create(s, rec, flushed).0 == s
    ensures !CreateWithId(s, rec, flushed).1 ==> CreateWithId(s, rec, flushed).0 == s
    ensures rec.id !in s.index ==> Update(s, rec, flushed) == (s, false)
  {
  }

  lemma {:induction false} DeleteManyIs(s: Snapshot, ids: seq<nat>)
    ensures DeleteMany(s, ids).index == s.index - Cluster.IdSet(ids)
    ensures Synced(s) ==> Synced(DeleteMany(s, ids))
    ensures DeleteMany(s, ids).nextID == s.nextID
  {
    if ids == [] {
      assert Cluster.IdSet(ids) == {};
      assert s.index - {} == s.index;
    } else {
      var init, last := ids[..|ids| - 1], ids[|ids| - 1];
      DeleteManyIs(s, init);
      assert ids == init + [last];
      assert Cluster.IdSet(ids) == Cluster.IdSet(init) + {last};
      DeleteOneMore(s.index, Cluster.IdSet(init), last);
    }
  }

  lemma DeleteOneMore(m: Store, ids: set<nat>, id: nat)
    ensures (m - ids) - {id} == m - (ids + {id})
    ensures id !in m - ids ==> m - ids == m - (ids + {id})
  {
  }

  lemma {:induction false} ApplySynced(s: Snapshot, op: Op)
    requires Synced(s) && (op.Updated? ==> UpdateReachesDisk(s, op.rec, op.flushed))
    ensures Synced(Apply(s, op))
  {
    match op
    case Created(_, _) =>
    case CreatedWithId(_, _) =>
    case CreatedMany(recs, failAt) =>
      InsertKeys(s.index, recs);
      InsertKeys(s.index, recs[..if failAt < |recs| then failAt else 0]);
    case Updated(rec, flushed) => UpdateSyncedIff(s, rec, flushed);
    case Deleted(_) =>
    case DeletedMany(ids) => DeleteManyIs(s, ids);
  }

  function Run(s: Snapshot, ops: seq<Op>): Snapshot {
    if ops == [] then s else Apply(Run(s, ops[..|ops| - 1]), ops[|ops| - 1])
  }

  /** Every update of the run reaches the disk; creates may fail to flush anywhere. */
  ghost predicate UpdatesReachDisk(s: Snapshot, ops: seq<Op>) {
    ops == [] ||
    (var init, op := ops[..|ops| - 1], ops[|ops| - 1];
     UpdatesReachDisk(s, init) && (op.Updated? ==> UpdateReachesDisk(Run(s, init), op.rec, op.flushed)))
  }

  /** The next id a load leaves: the smallest positive one above every file. */
  ghost predicate JustAbove(n: nat, m: Store) {
    && n >= 1
    && (forall id :: id in m ==> id < n)
    && (n == 1 || n - 1 in m)
  }

  lemma {:induction false} LoadIs(s: Snapshot, files: seq<Record>)
    requires s.index == map[]
    ensures LoadFiles(s, files).index == Insert(map[], files) && LoadFiles(s, files).disk == s.disk
    ensures JustAbove(LoadFiles(s, files).nextID, Insert(map[], files))
  {
    if files != [] {
      LoadIs(s, files[..|files| - 1]);
      InsertKeys(map[], files);
    }
  }

  lemma {:induction false} InsertEnumerated(files: seq<Record>, m: Store)
    requires Keyed(m) && Enumerates(files, m)
    ensures Insert(map[], files) == m
  {
    InsertKeys(map[], files);
    forall id | id in m
      ensures id in Ids(files) && Insert(map[], files)[id] == m[id]
    {
      assert m[id] in files;
      InsertFinds(map[], files, m[id]);
    }
    forall id | id in Ids(files)
      ensures id in m
    {
      var r :| r in files && r.id == id;
    }
    SameMap(Insert(map[], files), m);
  }

  /** After any run of creates, batch creates and deletes with any flush failures, and of updates that reach the
      disk, a fresh index loading the files in any order has the same records, and a next id above them all. */
  lemma {:induction false} ReloadAfterRun(s: Snapshot, ops: seq<Op>, files: seq<Record>)
    requires Synced(s) && UpdatesReachDisk(s, ops) && Enumerates(files, Run(s, ops).disk)
    ensures Synced(Run(s, ops))
    ensures var t := LoadFiles(Snapshot(map[], 1, Run(s, ops).disk), files);
            t.index == Run(s, ops).index && t.disk == t.index && JustAbove(t.nextID, t.index)
  {
    RunSynced(s, ops);
    LoadIs(Snapshot(map[], 1, Run(s, ops).disk), files);
    InsertEnumerated(files, Run(s, ops).disk);
  }

  lemma {:induction false} RunSynced(s: Snapshot, ops: seq<Op>)
    requires Synced(s) && UpdatesReachDisk(s, ops)
    ensures Synced(Run(s, ops))
  {
    if ops != [] {
      RunSynced(s, ops[..|ops| - 1]);
      ApplySynced(Run(s, ops[..|ops| - 1]), ops[|ops| - 1]);
    }
  }

  /** A failed batch leaves a synced store as it was exactly when none of its ids was already stored. */
  lemma {:induction false} FailedBatchRestoresIff(s: Snapshot, recs: seq<Record>, failAt: nat)
    requires Synced(s) && failAt < |recs|
    ensures CreateMany(s, recs, failAt).0 == s <==> Ids(recs) !! s.index.Keys
  {
    var pre := recs[..failAt];
    InsertKeys(s.index, pre);
    var after := Insert(s.index, pre) - Ids(recs);
    forall id | id in after
      ensures id in s.index && after[id] == s.index[id]
    {
      assert forall r :: r in pre ==> r in recs;
      InsertLookup(s.index, pre, id);
    }
    if Ids(recs) !! s.index.Keys {
      assert after.Keys == s.index.Keys;
      SameMap(after, s.index);
    } else {
      var id :| id in Ids(recs) && id in s.index.Keys;
      assert id !in after;
    }
  }

  /** The node outcomes the master's transfers and splits reckon with are the ones this index produces. */
  lemma {:induction false} OutcomesMatch(s: Snapshot, recs: seq<Record>, failAt: nat, rec: Record, flushed: bool)
    ensures CreateMany(s, recs, failAt).1 <==> failAt >= |recs|
    ensures CreateMany(s, recs, failAt).0.index ==
            Nodes.StoreMany(s.index, recs, if failAt < |recs| then Nodes.RolledBack else Nodes.Stored)
    ensures CreateWithId(s, rec, flushed).0.index ==
            Cluster.CreateOne(s.index, rec, if flushed then Nodes.Stored else Nodes.NotStored)
    ensures CreateWithId(s, rec, flushed).1 <==>
            Cluster.CreateOneOk(s.index, rec, if flushed then Nodes.Stored else Nodes.NotStored)
  {
    if failAt < |recs| {
      var pre := recs[..failAt];
      assert forall r :: r in pre ==> r in recs;
      InsertKeys(s.index, pre);
      var a, b := Insert(s.index, pre) - Ids(recs), s.index - Ids(recs);
      assert a.Keys == b.Keys;
      forall id | id in b
        ensures a[id] == b[id]
      {
        InsertLookup(s.index, pre, id);
      }
      SameMap(a, b);
    }
  }

  function CreateEach(s: Snapshot, recs: seq<Record>): Snapshot {
    if recs == [] then s else Create(CreateEach(s, recs[..|recs| - 1]), recs[|recs| - 1], true).0
  }

  /** Every one of these creates succeeds. */
  ghost predicate AllCreated(s: Snapshot, recs: seq<Record>) {
    recs == [] ||
    (var init := recs[..|recs| - 1];
     AllCreated(s, init) && Create(CreateEach(s, init), recs[|recs| - 1], true).1)
  }

  ghost predicate NoneStored(m: Store, lo: nat, hi: nat) {
    forall id :: lo <= id < hi ==> id !in m
  }

  /** `t` holds what `s` holds and, under the ids that followed its next one, exactly the given records. */
  ghost predicate Extended(s: Snapshot, t: Snapshot, recs: seq<Record>) {
    && t.nextID == s.nextID + |recs|
    && (forall id :: id in t.index <==> id in s.index || s.nextID <= id < t.nextID)
    && (forall id :: s.nextID <= id < t.nextID ==> t.index[id] == recs[id - s.nextID].(id := id))
    && (forall id :: id in s.index ==> t.index[id] == s.index[id])
  }

  lemma ExtendOne(s: Snapshot, t: Snapshot, recs: seq<Record>, rec: Record)
    requires Extended(s, t, recs)
    ensures Create(t, rec, true).1 <==> t.nextID !in s.index
    ensures Create(t, rec, true).1 ==> Extended(s, Create(t, rec, true).0, recs + [rec])
  {
  }

  /** Flushed creates all succeed exactly when none of the ids ahead of the next id is stored; then they store
      exactly their records, under consecutive ids, and leave the others alone. */
  lemma {:induction false} CreatesSucceedIff(s: Snapshot, recs: seq<Record>)
    ensures AllCreated(s, recs) <==> NoneStored(s.index, s.nextID, s.nextID + |recs|)
    ensures AllCreated(s, recs) ==> Extended(s, CreateEach(s, recs), recs)
  {
    hide Create;
    if recs == [] {
      assert Extended(s, s, []);
    } else {
      hide Extended;
      var init, last := recs[..|recs| - 1], recs[|recs| - 1];
      assert recs == init + [last];
      CreatesSucceedIff(s, init);
      if AllCreated(s, init) {
        NextIs(s, CreateEach(s, init), init);
        ExtendOne(s, CreateEach(s, init), init, last);
      }
    }
  }

  lemma NextIs(s: Snapshot, t: Snapshot, recs: seq<Record>)
    requires Extended(s, t, recs)
    ensures t.nextID == s.nextID + |recs|
  {
  }

  /** The operation does not remove record `id`. A batch that fails erases all its ids. */
  ghost predicate Spares(op: Op, id: nat) {
    match op
    case CreatedMany(recs, failAt) => failAt < |recs| ==> id !in Ids(recs)
    case Deleted(d) => d != id
    case DeletedMany(ids) => id !in ids
    case _ => true
  }

  /** Once the next id is stored, only removing it makes a create possible again. */
  lemma {:induction false} BlockedIff(s: Snapshot, op: Op, other: Record)
    requires s.nextID in s.index
    ensures Apply(s, op).nextID == s.nextID
    ensures s.nextID in Apply(s, op).index <==> Spares(op, s.nextID)
    ensures Create(Apply(s, op), other, true).1 <==> !Spares(op, s.nextID)
  {
    match op
    case CreatedMany(recs, failAt) =>
      InsertKeys(s.index, recs);
      InsertKeys(s.index, recs[..if failAt < |recs| then failAt else 0]);
    case DeletedMany(ids) => DeleteManyIs(s, ids);
    case _ =>
  }

  /** A record stored under the next id with CreateWithId, which does not advance it: along every run that does
      not remove that record, every create fails and changes nothing. */
  lemma {:induction false} CreateBlocked(s: Snapshot, rec: Record, ops: seq<Op>, other: Record, flushed: bool)
    requires rec.id == s.nextID && s.nextID !in s.index
    requires forall op :: op in ops ==> Spares(op, s.nextID)
    ensures var t := Run(CreateWithId(s, rec, true).0, ops);
            && t.nextID == s.nextID && s.nextID in t.index
            && Create(t, other, flushed) == (t, false)
  {
    hide Apply, Spares;
    if ops != [] {
      var init, last := ops[..|ops| - 1], ops[|ops| - 1];
      assert last in ops && forall op :: op in init ==> op in ops;
      CreateBlocked(s, rec, init, other, flushed);
      BlockedIff(Run(CreateWithId(s, rec, true).0, init), last, other);
    }
  }

  // ----- what deletes return -----

  /** The records a bulk delete removes, in the order of the ids. */
  function Removed(s: Snapshot, ids: seq<nat>): seq<Record> {
    if ids == [] then []
    else
      var init, last := ids[..|ids| - 1], ids[|ids| - 1];
      var left := DeleteMany(s, init).index;
      Removed(s, init) + (if last in left then [left[last]] else [])
  }

  /** Exactly the stored records with a given id are returned, each once, and storing them again undoes the
      delete. */
  lemma {:induction false} RemovedRestores(s: Snapshot, ids: seq<nat>)
    requires Keyed(s.index)
    ensures DistinctIds(Removed(s, ids))
    ensures forall r :: r in Removed(s, ids) <==> r.id in ids && r.id in s.index && s.index[r.id] == r
    ensures Insert(DeleteMany(s, ids).index, Removed(s, ids)) == s.index
  {
    RemovedAre(s, ids);
    var gone := Removed(s, ids);
    DeleteManyIs(s, ids);
    var left := DeleteMany(s, ids).index;
    InsertKeys(left, gone);
    forall id | id in s.index
      ensures id in Insert(left, gone) && Insert(left, gone)[id] == s.index[id]
    {
      assert id in ids ==> s.index[id] in gone;
      InsertLookup(left, gone, id);
    }
    SameMap(Insert(left, gone), s.index);
  }

  lemma {:induction false} RemovedAre(s: Snapshot, ids: seq<nat>)
    requires Keyed(s.index)
    ensures DistinctIds(Removed(s, ids))
    ensures forall r :: r in Removed(s, ids) <==> r.id in ids && r.id in s.index && s.index[r.id] == r
  {
    if ids != [] {
      var init, last := ids[..|ids| - 1], ids[|ids| - 1];
      RemovedAre(s, init);
      DeleteManyIs(s, init);
      assert ids == init + [last];
      var a := Removed(s, init);
      assert forall i :: 0 <= i < |a| ==> a[i] in a;
    }
  }

  // ----- the index object -----

  class Index {
    var index: Store
    var nextID: nat
    var disk: Store

    ghost function Snap(): Snapshot
      reads this
    {
      Snapshot(index, nextID, disk)
    }

    /** A new index over a data folder. */
    constructor (disk: Store)
      ensures Snap() == Snapshot(map[], 1, disk)
    {
      index, nextID, this.disk := map[], 1, disk;
    }

    /** Load every file; `files` is the order in which the folder was listed. */
    method Load(files: seq<Record>)
      modifies this
      ensures Snap() == LoadFiles(old(Snap()), files)
    {
      nextID := 1;
      for k := 0 to |files|
        invariant Snap() == LoadFiles(old(Snap()), files[..k])
      {
        assert files[..k + 1][..k] == files[..k];
        var r := files[k];
        index := index[r.id := r];
        if r.id >= nextID {
          nextID := r.id + 1;
        }
      }
      assert files[..|files|] == files;
    }

    method CreateRecord(rec: Record, flushed: bool) returns (ok: bool)
      modifies this
      ensures (Snap(), ok) == Create(old(Snap()), rec, flushed)
    {
      var recID := nextID;
      if recID in index || !flushed {
        return false;
      }
      disk := disk[recID := rec.(id := recID)];
      nextID := nextID + 1;
      index := index[recID := rec.(id := recID)];
      return true;
    }

    method CreateRecordWithId(rec: Record, flushed: bool) returns (ok: bool)
      modifies this
      ensures (Snap(), ok) == CreateWithId(old(Snap()), rec, flushed)
    {
      if rec.id in index || !flushed {
        return false;
      }
      disk := disk[rec.id := rec];
      index := index[rec.id := rec];
      return true;
    }

    /** Store a batch; on the first failing flush every id of the batch is erased. */
    method CreateManyWithId(recs: seq<Record>, failAt: nat) returns (ok: bool)
      modifies this
      ensures (Snap(), ok) == CreateMany(old(Snap()), recs, failAt)
    {
      var k := 0;
      while k < |recs| && k != failAt
        invariant 0 <= k <= |recs| && (failAt < |recs| ==> k <= failAt)
        invariant Snap() == old(Snap()).(index := Insert(old(index), recs[..k]), disk := Insert(old(disk), recs[..k]))
      {
        assert recs[..k + 1][..k] == recs[..k];
        disk := disk[recs[k].id := recs[k]];
        index := index[recs[k].id := recs[k]];
        k := k + 1;
      }
      assert recs[..|recs|] == recs;
      if k == |recs| {
        return true;
      }
      Rollback(recs);
      return false;
    }

    /** The deferred rollback loop. */
    method Rollback(recs: seq<Record>)
      modifies this
      ensures Snap() == old(Snap()).(index := old(index) - Ids(recs), disk := old(disk) - Ids(recs))
    {
      for k := 0 to |recs|
        invariant nextID == old(nextID)
        invariant index == old(index) - Ids(recs[..k]) && disk == old(disk) - Ids(recs[..k])
      {
        assert recs[..k + 1][..k] == recs[..k];
        IdsSplit(recs[..k + 1]);
        index := index - {recs[k].id};
        disk := disk - {recs[k].id};
      }
      assert recs[..|recs|] == recs;
    }

    method UpdateRecord(rec: Record, flushed: bool) returns (ok: bool)
      modifies this
      ensures (Snap(), ok) == Update(old(Snap()), rec, flushed)
    {
      if rec.id !in index {
        return false;
      }
      var stored := CopyFields(index[rec.id], rec);
      index := index[rec.id := stored];
      if flushed {
        disk := disk[rec.id := stored];
      }
      return flushed;
    }

    method DeleteRecord(id: nat) returns (gone: Option<Record>)
      modifies this
      ensures Snap() == Delete(old(Snap()), id)
      ensures gone == if id in old(index) then Some(old(index)[id]) else None
    {
      if id !in index {
        return None;
      }
      gone := Some(index[id]);
      index := index - {id};
      disk := disk - {id};
    }

    method DeleteRecords(ids: seq<nat>) returns (gone: seq<Record>)
      modifies this
      ensures Snap() == DeleteMany(old(Snap()), ids)
      ensures gone == Removed(old(Snap()), ids)
    {
      gone := [];
      for k := 0 to |ids|
        invariant Snap() == DeleteMany(old(Snap()), ids[..k])
        invariant gone == Removed(old(Snap()), ids[..k])
      {
        assert ids[..k + 1][..k] == ids[..k];
        var id := ids[k];
        if id in index {
          var record := index[id];
          index := index - {id};
          disk := disk - {id};
          gone := gone + [record];
        }
      }
      assert ids[..|ids|] == ids;
    }
  }
}
