/** The records of a node and the index of their meta values (node/storage/records.go). */
module MetaIndex {
  import opened Wrappers
  import opened Records
  import opened Paging
  import Storage

  type Meta = map<string, string>
  type MetaBy = map<string, map<string, seq<nat>>>

  function MetaOf(r: Record): Meta {
    if r.meta.Some? then r.meta.value else map[]
  }

  ghost predicate HasMeta(r: Record, key: string, val: string) {
    key in MetaOf(r) && MetaOf(r)[key] == val
  }

  /** The ids filed under a key and value. */
  function Bucket(mb: MetaBy, key: string, val: string): seq<nat> {
    if key in mb && val in mb[key] then mb[key][val] else []
  }

  /** Filing an id under every pair of `meta`. */
  function Add(mb: MetaBy, id: nat, meta: Meta): MetaBy {
    map key | key in mb.Keys + meta.Keys ::
      if key !in meta then mb[key]
      else if key !in mb then map[meta[key] := [id]]
      else mb[key][meta[key] := Bucket(mb, key, meta[key]) + [id]]
  }

  /** Filing an id under one pair. */
  function FileUnder(mb: MetaBy, id: nat, key: string, val: string): MetaBy {
    if key !in mb then mb[key := map[val := [id]]]
    else mb[key := mb[key][val := Bucket(mb, key, val) + [id]]]
  }

  lemma AddOneMore(mb: MetaBy, id: nat, meta: Meta, key: string, val: string)
    requires key !in meta
    ensures FileUnder(Add(mb, id, meta), id, key, val) == Add(mb, id, meta[key := val])
  {
    hide Bucket;
    var a, b := FileUnder(Add(mb, id, meta), id, key, val), Add(mb, id, meta[key := val]);
    assert Add(mb, id, meta).Keys == mb.Keys + meta.Keys;
    assert a.Keys == b.Keys;
    forall k | k in b
      ensures a[k] == b[k]
    {
      AddOneMoreAt(mb, id, meta, key, val, k);
    }
  }

  lemma AddOneMoreAt(mb: MetaBy, id: nat, meta: Meta, key: string, val: string, k: string)
    requires key !in meta && k in mb.Keys + meta.Keys + {key}
    ensures FileUnder(Add(mb, id, meta), id, key, val)[k] == Add(mb, id, meta[key := val])[k]
  {
  }

  lemma AddNone(mb: MetaBy, id: nat)
    ensures Add(mb, id, map[]) == mb
  {
  }

  function AddAll(mb: MetaBy, recs: seq<Record>): MetaBy {
    if recs == [] then mb
    else
      var r := recs[|recs| - 1];
      Add(AddAll(mb, recs[..|recs| - 1]), r.id, MetaOf(r))
  }

  lemma BucketOfAdd(mb: MetaBy, id: nat, meta: Meta, key: string, val: string)
    ensures Bucket(Add(mb, id, meta), key, val) ==
            Bucket(mb, key, val) + (if key in meta && meta[key] == val then [id] else [])
  {
  }

  /** The records of a bucket that are still stored, in bucket order. */
  function Stored(m: Store, ids: seq<nat>): seq<Record> {
    if ids == [] then []
    else
      var id := ids[|ids| - 1];
      Stored(m, ids[..|ids| - 1]) + (if id in m then [m[id]] else [])
  }

  /** FindBy: nothing if the key was never indexed. */
  function FindBy(mb: MetaBy, m: Store, key: string, val: string): Option<seq<Record>> {
    if key !in mb then None else Some(Stored(m, Bucket(mb, key, val)))
  }

  // ----- the operations -----

  datatype State = State(snap: Storage.Snapshot, metaBy: MetaBy)

  /** A missing shape becomes one dimension as long as the data. */
  function WithShape(r: Record): Record {
    if r.shape.Some? then r else r.(shape := Some([if r.data.Some? then |r.data.value| else 0]))
  }

  function Apply(s: State, op: Storage.Op): State {
    match op
    case Created(rec, flushed) =>
      var (snap, ok) := Storage.Create(s.snap, WithShape(rec), flushed);
      State(snap, if ok then Add(s.metaBy, s.snap.nextID, MetaOf(rec)) else s.metaBy)
    case CreatedWithId(rec, flushed) =>
      var (snap, ok) := Storage.CreateWithId(s.snap, rec, flushed);
      State(snap, if ok then Add(s.metaBy, rec.id, MetaOf(rec)) else s.metaBy)
    case CreatedMany(recs, failAt) =>
      var (snap, ok) := Storage.CreateMany(s.snap, recs, failAt);
      State(snap, if ok then AddAll(s.metaBy, recs) else s.metaBy)
    case Updated(rec, flushed) =>
      var (snap, ok) := Storage.Update(s.snap, rec, flushed);
      State(snap, if ok then Add(s.metaBy, rec.id, MetaOf(rec)) else s.metaBy)
    case Deleted(id) => s.(snap := Storage.Delete(s.snap, id))
    case DeletedMany(ids) => s.(snap := Storage.DeleteMany(s.snap, ids))
  }

  // ----- the index never misses -----

  /** Every stored record is filed under each of its meta pairs. */
  ghost predicate Covers(mb: MetaBy, m: Store) {
    forall id, key, val :: id in m && HasMeta(m[id], key, val) ==> id in Bucket(mb, key, val)
  }

  /** Nothing that was filed is lost. */
  ghost predicate Grows(a: MetaBy, b: MetaBy) {
    forall key, val, id :: id in Bucket(a, key, val) ==> id in Bucket(b, key, val)
  }

  lemma AddGrows(mb: MetaBy, id: nat, meta: Meta)
    ensures Grows(mb, Add(mb, id, meta))
    ensures forall key, val :: key in meta && meta[key] == val ==> id in Bucket(Add(mb, id, meta), key, val)
  {
  }

  lemma {:induction false} AddAllGrows(mb: MetaBy, recs: seq<Record>)
    ensures Grows(mb, AddAll(mb, recs))
    ensures forall r, key, val :: r in recs && HasMeta(r, key, val) ==> r.id in Bucket(AddAll(mb, recs), key, val)
  {
    hide Add, Bucket;
    if recs != [] {
      var init, last := recs[..|recs| - 1], recs[|recs| - 1];
      AddAllGrows(mb, init);
      AddGrows(AddAll(mb, init), last.id, MetaOf(last));
      assert recs == init + [last];
    }
  }

  /** Storing or replacing one record and filing what it carries. */
  lemma CoverOne(mb: MetaBy, m: Store, id: nat, r: Record, meta: Meta)
    requires Covers(mb, m)
    requires forall key, val :: HasMeta(r, key, val) ==>
               (key in meta && meta[key] == val) || (id in m && HasMeta(m[id], key, val))
    ensures Covers(Add(mb, id, meta), m[id := r])
  {
    hide Add, Bucket;
    AddGrows(mb, id, meta);
  }

  lemma CoverFewer(mb: MetaBy, m: Store, m': Store)
    requires Covers(mb, m) && forall id :: id in m' ==> id in m && m'[id] == m[id]
    ensures Covers(mb, m')
  {
  }

  lemma {:induction false} CoverMany(mb: MetaBy, m: Store, recs: seq<Record>)
    requires Covers(mb, m)
    ensures Covers(AddAll(mb, recs), Insert(m, recs))
  {
    hide Bucket, AddAll;
    AddAllGrows(mb, recs);
    var m' := Insert(m, recs);
    forall id, key, val | id in m' && HasMeta(m'[id], key, val)
      ensures id in Bucket(AddAll(mb, recs), key, val)
    {
      InsertLookup(m, recs, id);
    }
  }

  /** A caller can tell from the update and the index whether a failed flush would leave a pair unfiled. */
  ghost predicate UpdateIsFiled(s: State, rec: Record, flushed: bool) {
    || flushed
    || rec.id !in s.snap.index
    || forall key, val :: HasMeta(rec, key, val) ==> rec.id in Bucket(s.metaBy, key, val)
  }

  /** An update keeps the index complete exactly when it is flushed, finds nothing, or carries only pairs that
      were already filed: a failed flush changes the record in memory but not the index. */
  lemma {:induction false} UpdateCoversIff(s: State, rec: Record, flushed: bool)
    requires Covers(s.metaBy, s.snap.index)
    ensures var s' := Apply(s, Storage.Updated(rec, flushed));
            Covers(s'.metaBy, s'.snap.index) <==> UpdateIsFiled(s, rec, flushed)
  {
    hide Add, Bucket;
    var m := s.snap.index;
    if rec.id in m {
      var r := CopyFields(m[rec.id], rec);
      assert forall key, val :: HasMeta(rec, key, val) ==> HasMeta(r, key, val);
      assert forall key, val :: HasMeta(r, key, val) ==> HasMeta(rec, key, val) || HasMeta(m[rec.id], key, val);
      if flushed {
        CoverOne(s.metaBy, m, rec.id, r, MetaOf(rec));
      } else {
        var m' := m[rec.id := r];
        assert m'[rec.id] == r;
      }
    }
  }

  lemma {:induction false} DeletesCover(s: State, ids: seq<nat>)
    requires Covers(s.metaBy, s.snap.index)
    ensures Covers(s.metaBy, Storage.DeleteMany(s.snap, ids).index)
  {
    Storage.DeleteManyIs(s.snap, ids);
    CoverFewer(s.metaBy, s.snap.index, Storage.DeleteMany(s.snap, ids).index);
  }

  lemma {:induction false} FailedBatchCovers(s: State, recs: seq<Record>, failAt: nat)
    requires Covers(s.metaBy, s.snap.index) && failAt < |recs|
    ensures Covers(s.metaBy, Storage.CreateMany(s.snap, recs, failAt).0.index)
  {
    hide Bucket;
    var pre := recs[..failAt];
    var m' := Insert(s.snap.index, pre) - Ids(recs);
    forall id | id in m'
      ensures id in s.snap.index && m'[id] == s.snap.index[id]
    {
      InsertKeys(s.snap.index, pre);
      assert forall r :: r in pre ==> r in recs;
      InsertLookup(s.snap.index, pre, id);
    }
    CoverFewer(s.metaBy, s.snap.index, m');
  }

  lemma {:induction false} ApplyCovers(s: State, op: Storage.Op)
    requires Covers(s.metaBy, s.snap.index)
    requires op.Updated? ==> UpdateIsFiled(s, op.rec, op.flushed)
    ensures Covers(Apply(s, op).metaBy, Apply(s, op).snap.index)
  {
    hide Add, Bucket, AddAll, Covers, Insert;
    match op
    case Created(rec, _) =>
      CoverOne(s.metaBy, s.snap.index, s.snap.nextID, WithShape(rec).(id := s.snap.nextID), MetaOf(rec));
    case CreatedWithId(rec, _) => CoverOne(s.metaBy, s.snap.index, rec.id, rec, MetaOf(rec));
    case CreatedMany(recs, failAt) =>
      if failAt < |recs| {
        FailedBatchCovers(s, recs, failAt);
      } else {
        CoverMany(s.metaBy, s.snap.index, recs);
      }
    case Updated(rec, flushed) => UpdateCoversIff(s, rec, flushed);
    case Deleted(id) => CoverFewer(s.metaBy, s.snap.index, Storage.Delete(s.snap, id).index);
    case DeletedMany(ids) => DeletesCover(s, ids);
  }

  // ----- what FindBy returns -----

  lemma {:induction false} StoredAre(m: Store, ids: seq<nat>, r: Record)
    ensures r in Stored(m, ids) <==> exists id :: id in ids && id in m && m[id] == r
  {
    if ids != [] {
      var init, last := ids[..|ids| - 1], ids[|ids| - 1];
      StoredAre(m, init, r);
      assert ids == init + [last];
    }
  }

  /** The records of a bucket come in its order. */
  lemma {:induction false} StoredInOrder(m: Store, a: seq<nat>, b: seq<nat>, id: nat)
    ensures Stored(m, a + b) == Stored(m, a) + Stored(m, b)
    ensures Stored(m, [id]) == if id in m then [m[id]] else []
    decreases |b|
  {
    assert [id][..0] == [];
    if b == [] {
      assert a + b == a;
    } else {
      assert (a + b)[..|a + b| - 1] == a + b[..|b| - 1];
      StoredInOrder(m, a, b[..|b| - 1], id);
    }
  }

  /** A key is known, so that FindBy answers with a list, exactly once something was filed under it. */
  lemma KnownKeys(mb: MetaBy, id: nat, meta: Meta, m: Store, key: string, val: string)
    ensures FindBy(map[], m, key, val) == None
    ensures FindBy(Add(mb, id, meta), m, key, val) == None <==> FindBy(mb, m, key, val) == None && key !in meta
  {
  }

  /** A record created without a shape gets one dimension as long as its data; the rest is stored as given. */
  lemma CreatedAs(s: State, rec: Record, flushed: bool)
    requires Storage.Create(s.snap, rec, flushed).1
    ensures var t := Apply(s, Storage.Created(rec, flushed));
      && s.snap.nextID in t.snap.index
      && var r := t.snap.index[s.snap.nextID];
         && r.id == s.snap.nextID && r.meta == rec.meta && r.data == rec.data
         && (rec.shape.Some? ==> r.shape == rec.shape)
         && (rec.shape.None? ==>
               r.shape == Some([match rec.data case Some(data) => |data| case None => 0]))
  {
  }

  function Run(s: State, ops: seq<Storage.Op>): State {
    if ops == [] then s else Apply(Run(s, ops[..|ops| - 1]), ops[|ops| - 1])
  }

  ghost predicate FiledRun(s: State, ops: seq<Storage.Op>) {
    ops == [] ||
    (var init, op := ops[..|ops| - 1], ops[|ops| - 1];
     FiledRun(s, init) && (op.Updated? ==> UpdateIsFiled(Run(s, init), op.rec, op.flushed)))
  }

  lemma {:induction false} RunCovers(s: State, ops: seq<Storage.Op>)
    requires Covers(s.metaBy, s.snap.index) && FiledRun(s, ops)
    ensures Covers(Run(s, ops).metaBy, Run(s, ops).snap.index)
  {
    hide Covers, UpdateIsFiled, Apply;
    if ops != [] {
      RunCovers(s, ops[..|ops| - 1]);
      ApplyCovers(Run(s, ops[..|ops| - 1]), ops[|ops| - 1]);
    }
  }

  /** In every state a run reaches, FindBy returns each stored record that has the pair, and returns nothing that
      is not stored. */
  lemma {:induction false} FindByNeverMisses(s: State, ops: seq<Storage.Op>, id: nat, key: string, val: string)
    requires Covers(s.metaBy, s.snap.index) && FiledRun(s, ops)
    ensures var t := Run(s, ops);
            var m, found := t.snap.index, FindBy(t.metaBy, t.snap.index, key, val);
      && (id in m && HasMeta(m[id], key, val) ==> found.Some? && m[id] in found.value)
      && (found.Some? ==> forall r :: r in found.value ==> exists i :: i in m && m[i] == r)
  {
    RunCovers(s, ops);
    var t := Run(s, ops);
    var m, ids := t.snap.index, Bucket(t.metaBy, key, val);
    if id in m {
      StoredAre(m, ids, m[id]);
    }
    forall r | r in Stored(m, ids)
      ensures exists i :: i in m && m[i] == r
    {
      StoredAre(m, ids, r);
    }
  }

  /** An update whose flush fails is found neither by its new value nor, in general, excluded by its old one. */
  lemma FailedFlushIsMissed()
    ensures var rec := Record(1, Some(map["k" := "v"]), None, None);
            var s := State(Storage.Snapshot(map[1 := rec], 2, map[1 := rec]), Add(map[], 1, MetaOf(rec)));
            var s' := Apply(s, Storage.Updated(rec.(meta := Some(map["k" := "w"])), false));
      && Covers(s.metaBy, s.snap.index)
      && HasMeta(s'.snap.index[1], "k", "w")
      && FindBy(s'.metaBy, s'.snap.index, "k", "w") == Some([])
      && FindBy(s'.metaBy, s'.snap.index, "k", "v") == Some([s'.snap.index[1]])
  {
    var rec := Record(1, Some(map["k" := "v"]), None, None);
    var mb: MetaBy := Add(map[], 1, MetaOf(rec));
    assert mb == map["k" := map["v" := [1]]];
    var r' := rec.(meta := Some(map["k" := "w"]));
    assert Stored(map[1 := r'], []) == [];
    assert [1][..0] == [];
    assert Stored(map[1 := r'], [1]) == [r'];
    assert Bucket(mb, "k", "w") == [] by { assert "v"[0] != "w"[0]; }
  }

  // ----- runs in which FindBy equals a scan -----

  ghost predicate BucketOk(mb: MetaBy, m: Store, key: string, val: string) {
    && NoRepeats(Bucket(mb, key, val))
    && (forall id :: id in Bucket(mb, key, val) && id in m ==> HasMeta(m[id], key, val))
    && (forall id :: id in m && HasMeta(m[id], key, val) ==> id in Bucket(mb, key, val))
  }

  /** Every bucket lists, once each, the stored ids that have its pair, and otherwise only ids no longer stored. */
  ghost predicate Exact(mb: MetaBy, m: Store) {
    Keyed(m) && forall key, val :: BucketOk(mb, m, key, val)
  }

  ghost predicate Unfiled(mb: MetaBy, id: nat) {
    forall key, val :: id !in Bucket(mb, key, val)
  }

  /** A doubled or a stale entry. */
  ghost predicate Spoilt(mb: MetaBy, m: Store, key: string, val: string) {
    || !NoRepeats(Bucket(mb, key, val))
    || exists id :: id in Bucket(mb, key, val) && id in m && !HasMeta(m[id], key, val)
  }

  lemma SpoiltIsNotExact(mb: MetaBy, m: Store, key: string, val: string)
    requires Spoilt(mb, m, key, val)
    ensures !Exact(mb, m)
  {
    assert !BucketOk(mb, m, key, val);
  }

  lemma FiledTwice(ids: seq<nat>, id: nat)
    requires id in ids
    ensures !NoRepeats(ids + [id])
  {
    var i :| 0 <= i < |ids| && ids[i] == id;
    assert (ids + [id])[i] == (ids + [id])[|ids|];
  }

  lemma MoreRepeats(a: seq<nat>, b: seq<nat>)
    requires !NoRepeats(a)
    ensures !NoRepeats(a + b)
  {
    var i, j :| 0 <= i < j < |a| && a[i] == a[j];
    assert (a + b)[i] == (a + b)[j];
  }

  /** Storing a record whose id is filed somewhere spoils that bucket: the pair is filed twice, or is not its own. */
  lemma {:induction false} FiledSpoils(mb: MetaBy, m: Store, r: Record, key: string, val: string)
    requires r.id in Bucket(mb, key, val)
    ensures Spoilt(Add(mb, r.id, MetaOf(r)), m[r.id := r], key, val)
  {
    hide Add, Bucket;
    BucketOfAdd(mb, r.id, MetaOf(r), key, val);
    if HasMeta(r, key, val) {
      FiledTwice(Bucket(mb, key, val), r.id);
    } else {
      assert r.id in Bucket(Add(mb, r.id, MetaOf(r)), key, val) && m[r.id := r][r.id] == r;
    }
  }

  lemma {:induction false} SpoiltStays(mb: MetaBy, m: Store, r: Record, key: string, val: string)
    requires Spoilt(mb, m, key, val)
    ensures Spoilt(Add(mb, r.id, MetaOf(r)), m[r.id := r], key, val)
  {
    hide Add, Bucket, NoRepeats;
    BucketOfAdd(mb, r.id, MetaOf(r), key, val);
    if !NoRepeats(Bucket(mb, key, val)) {
      MoreRepeats(Bucket(mb, key, val), if HasMeta(r, key, val) then [r.id] else []);
    } else {
      var id :| id in Bucket(mb, key, val) && id in m && !HasMeta(m[id], key, val);
      if id == r.id {
        FiledSpoils(mb, m, r, key, val);
      } else {
        assert id in Bucket(Add(mb, r.id, MetaOf(r)), key, val) && m[r.id := r][id] == m[id];
      }
    }
  }

  /** Storing a record and filing it keeps the buckets exact exactly when its id was filed nowhere. */
  lemma {:induction false} ExactAddIff(mb: MetaBy, m: Store, r: Record)
    requires Exact(mb, m)
    ensures Exact(Add(mb, r.id, MetaOf(r)), m[r.id := r]) <==> Unfiled(mb, r.id)
  {
    hide Add, Bucket;
    var mb', m' := Add(mb, r.id, MetaOf(r)), m[r.id := r];
    if Unfiled(mb, r.id) {
      forall key, val
        ensures BucketOk(mb', m', key, val)
      {
        assert BucketOk(mb, m, key, val);
        BucketOfAdd(mb, r.id, MetaOf(r), key, val);
      }
    } else {
      var key, val :| r.id in Bucket(mb, key, val);
      FiledSpoils(mb, m, r, key, val);
      SpoiltIsNotExact(mb', m', key, val);
    }
  }

  /** A stored id is filed nowhere exactly when its record has no meta values. */
  lemma {:induction false} UnfiledIff(mb: MetaBy, m: Store, id: nat)
    requires Exact(mb, m) && id in m
    ensures Unfiled(mb, id) <==> MetaOf(m[id]) == map[]
  {
    hide Bucket;
    if key :| key in MetaOf(m[id]) {
      assert BucketOk(mb, m, key, MetaOf(m[id])[key]) && HasMeta(m[id], key, MetaOf(m[id])[key]);
    }
    if MetaOf(m[id]) == map[] {
      forall key, val
        ensures id !in Bucket(mb, key, val)
      {
        assert BucketOk(mb, m, key, val);
      }
    }
  }

  // ----- batches -----

  /** No id of the batch is filed, and only the last of several records with one id carries meta values. */
  ghost predicate FiledOnce(mb: MetaBy, recs: seq<Record>) {
    && (forall i :: 0 <= i < |recs| ==> Unfiled(mb, recs[i].id))
    && (forall i, j :: 0 <= i < j < |recs| && recs[i].id == recs[j].id ==> MetaOf(recs[i]) == map[])
  }

  lemma {:induction false} UnfiledAddIff(mb: MetaBy, r: Record, id: nat)
    ensures Unfiled(Add(mb, r.id, MetaOf(r)), id) <==> Unfiled(mb, id) && (r.id == id ==> MetaOf(r) == map[])
  {
    hide Add, Bucket;
    var mb' := Add(mb, r.id, MetaOf(r));
    forall key, val
      ensures id in Bucket(mb', key, val) <==> id in Bucket(mb, key, val) || (id == r.id && HasMeta(r, key, val))
    {
      BucketOfAdd(mb, r.id, MetaOf(r), key, val);
    }
    if key :| key in MetaOf(r) {
      assert HasMeta(r, key, MetaOf(r)[key]);
    }
  }

  lemma {:induction false} UnfiledAllIff(mb: MetaBy, recs: seq<Record>, id: nat)
    ensures Unfiled(AddAll(mb, recs), id) <==>
            Unfiled(mb, id) && forall i :: 0 <= i < |recs| && recs[i].id == id ==> MetaOf(recs[i]) == map[]
  {
    hide Unfiled, Add;
    if recs != [] {
      var init, last := recs[..|recs| - 1], recs[|recs| - 1];
      UnfiledAllIff(mb, init, id);
      UnfiledAddIff(AddAll(mb, init), last, id);
      assert forall i :: 0 <= i < |init| ==> init[i] == recs[i];
    }
  }

  lemma {:induction false} FiledOnceNext(mb: MetaBy, recs: seq<Record>)
    requires recs != []
    ensures var init := recs[..|recs| - 1];
            FiledOnce(mb, recs) <==> FiledOnce(mb, init) && Unfiled(AddAll(mb, init), recs[|recs| - 1].id)
  {
    hide Unfiled, AddAll;
    var init := recs[..|recs| - 1];
    UnfiledAllIff(mb, init, recs[|recs| - 1].id);
    assert forall i :: 0 <= i < |init| ==> init[i] == recs[i];
  }

  ghost predicate SomeSpoilt(mb: MetaBy, m: Store) {
    exists key, val :: Spoilt(mb, m, key, val)
  }

  lemma {:induction false} ExactBatch(mb: MetaBy, m: Store, recs: seq<Record>)
    requires Exact(mb, m)
    ensures FiledOnce(mb, recs) ==> Exact(AddAll(mb, recs), Insert(m, recs))
    ensures !FiledOnce(mb, recs) ==> SomeSpoilt(AddAll(mb, recs), Insert(m, recs))
  {
    hide Exact, Add, FiledOnce, Spoilt, Unfiled;
    if recs == [] {
      NoneFiled(mb);
    } else {
      var init, last := recs[..|recs| - 1], recs[|recs| - 1];
      ExactBatch(mb, m, init);
      FiledOnceNext(mb, recs);
      var mb0, m0 := AddAll(mb, init), Insert(m, init);
      if !FiledOnce(mb, init) {
        var key, val :| Spoilt(mb0, m0, key, val);
        SpoiltStays(mb0, m0, last, key, val);
      } else if Unfiled(mb0, last.id) {
        ExactAddIff(mb0, m0, last);
      } else {
        FiledIdSpoils(mb0, m0, last);
      }
    }
  }

  lemma NoneFiled(mb: MetaBy)
    ensures FiledOnce(mb, [])
  {
  }

  lemma {:induction false} FiledIdSpoils(mb: MetaBy, m: Store, r: Record)
    requires !Unfiled(mb, r.id)
    ensures SomeSpoilt(Add(mb, r.id, MetaOf(r)), m[r.id := r])
  {
    hide Add, Bucket, Spoilt;
    var key, val :| r.id in Bucket(mb, key, val);
    FiledSpoils(mb, m, r, key, val);
  }

  // ----- updates and removals -----

  lemma ExactFewer(mb: MetaBy, m: Store, m': Store)
    requires Exact(mb, m) && forall id :: id in m' ==> id in m && m'[id] == m[id]
    ensures Exact(mb, m')
  {
    hide Bucket;
    forall key, val
      ensures BucketOk(mb, m', key, val)
    {
      assert BucketOk(mb, m, key, val);
    }
  }

  /** Replacing a record and filing nothing keeps the buckets exact exactly when the meta values stay. */
  lemma {:induction false} ExactReplaceIff(mb: MetaBy, m: Store, r: Record)
    requires Exact(mb, m) && r.id in m
    ensures Exact(mb, m[r.id := r]) <==> MetaOf(r) == MetaOf(m[r.id])
  {
    hide Bucket;
    var m' := m[r.id := r];
    if MetaOf(r) == MetaOf(m[r.id]) {
      forall key, val
        ensures BucketOk(mb, m', key, val)
      {
        assert BucketOk(mb, m, key, val);
      }
    }
    if Exact(mb, m') {
      forall key, val
        ensures HasMeta(r, key, val) <==> HasMeta(m[r.id], key, val)
      {
        assert BucketOk(mb, m, key, val) && BucketOk(mb, m', key, val);
        assert m'[r.id] == r;
      }
      SameMeta(r, m[r.id]);
    }
  }

  lemma SameMeta(a: Record, b: Record)
    requires forall key, val :: HasMeta(a, key, val) <==> HasMeta(b, key, val)
    ensures MetaOf(a) == MetaOf(b)
  {
    forall key | key in MetaOf(a)
      ensures key in MetaOf(b) && MetaOf(b)[key] == MetaOf(a)[key]
    {
      assert HasMeta(a, key, MetaOf(a)[key]);
    }
    forall key | key in MetaOf(b)
      ensures key in MetaOf(a)
    {
      assert HasMeta(b, key, MetaOf(b)[key]);
    }
  }

  /** An update finds nothing, carries no meta values, files the first ones of its record, or fails to flush what was
      there already. */
  ghost predicate UpdateKeepsExact(m: Store, rec: Record, flushed: bool) {
    || rec.id !in m
    || rec.meta.None?
    || (flushed && MetaOf(m[rec.id]) == map[])
    || (!flushed && MetaOf(rec) == MetaOf(m[rec.id]))
  }

  lemma {:induction false} UpdateExactIff(s: State, rec: Record, flushed: bool)
    requires Exact(s.metaBy, s.snap.index)
    ensures var s' := Apply(s, Storage.Updated(rec, flushed));
            Exact(s'.metaBy, s'.snap.index) <==> UpdateKeepsExact(s.snap.index, rec, flushed)
  {
    hide Add;
    var m := s.snap.index;
    if rec.id in m {
      assert m[rec.id].id == rec.id;
      var r := CopyFields(m[rec.id], rec);
      if rec.meta.None? {
        ExactReplaceIff(s.metaBy, m, r);
        AddNone(s.metaBy, rec.id);
      } else if flushed {
        ExactAddIff(s.metaBy, m, r);
        UnfiledIff(s.metaBy, m, rec.id);
      } else {
        ExactReplaceIff(s.metaBy, m, r);
      }
    }
  }

  lemma {:induction false} FailedBatchExact(s: State, recs: seq<Record>, failAt: nat)
    requires Exact(s.metaBy, s.snap.index) && failAt < |recs|
    ensures Exact(s.metaBy, Storage.CreateMany(s.snap, recs, failAt).0.index)
  {
    hide Exact;
    var pre := recs[..failAt];
    var m' := Insert(s.snap.index, pre) - Ids(recs);
    forall id | id in m'
      ensures id in s.snap.index && m'[id] == s.snap.index[id]
    {
      InsertKeys(s.snap.index, pre);
      assert forall r :: r in pre ==> r in recs;
      InsertLookup(s.snap.index, pre, id);
    }
    ExactFewer(s.metaBy, s.snap.index, m');
  }

  lemma {:induction false} BatchExactIff(s: State, recs: seq<Record>, failAt: nat)
    requires Exact(s.metaBy, s.snap.index)
    ensures var s' := Apply(s, Storage.CreatedMany(recs, failAt));
            Exact(s'.metaBy, s'.snap.index) <==> failAt < |recs| || FiledOnce(s.metaBy, recs)
  {
    hide Exact, AddAll, FiledOnce, Spoilt;
    if failAt < |recs| {
      FailedBatchExact(s, recs, failAt);
    } else {
      ExactBatch(s.metaBy, s.snap.index, recs);
      var mb, m := AddAll(s.metaBy, recs), Insert(s.snap.index, recs);
      if key, val :| Spoilt(mb, m, key, val) {
        SpoiltIsNotExact(mb, m, key, val);
      }
    }
  }

  // ----- runs -----

  /** What a caller can tell from the operation, the store and the index. */
  ghost predicate KeepsExact(s: State, op: Storage.Op) {
    match op
    case Created(rec, flushed) => Storage.Create(s.snap, rec, flushed).1 ==> Unfiled(s.metaBy, s.snap.nextID)
    case CreatedWithId(rec, flushed) => Storage.CreateWithId(s.snap, rec, flushed).1 ==> Unfiled(s.metaBy, rec.id)
    case CreatedMany(recs, failAt) => failAt < |recs| || FiledOnce(s.metaBy, recs)
    case Updated(rec, flushed) => UpdateKeepsExact(s.snap.index, rec, flushed)
    case _ => true
  }

  lemma {:induction false} DeletesExact(s: State, ids: seq<nat>, id: nat)
    requires Exact(s.metaBy, s.snap.index)
    ensures Exact(s.metaBy, Storage.DeleteMany(s.snap, ids).index)
    ensures Exact(s.metaBy, Storage.Delete(s.snap, id).index)
  {
    hide Exact;
    Storage.DeleteManyIs(s.snap, ids);
    ExactFewer(s.metaBy, s.snap.index, Storage.DeleteMany(s.snap, ids).index);
    ExactFewer(s.metaBy, s.snap.index, Storage.Delete(s.snap, id).index);
  }

  /** Each operation keeps every bucket exact if and only if: a create gets an id that is filed nowhere, a batch fails or
      has only such ids, an update is of the kind above. Otherwise some bucket has a stale or doubled entry. */
  lemma {:induction false} ApplyExactIff(s: State, op: Storage.Op)
    requires Exact(s.metaBy, s.snap.index)
    ensures Exact(Apply(s, op).metaBy, Apply(s, op).snap.index) <==> KeepsExact(s, op)
  {
    hide Exact, Unfiled, Add, AddAll, FiledOnce, UpdateKeepsExact;
    match op
    case Created(rec, _) =>
      ExactAddIff(s.metaBy, s.snap.index, WithShape(rec).(id := s.snap.nextID));
    case CreatedWithId(rec, _) => ExactAddIff(s.metaBy, s.snap.index, rec);
    case CreatedMany(recs, failAt) => BatchExactIff(s, recs, failAt);
    case Updated(rec, flushed) => UpdateExactIff(s, rec, flushed);
    case Deleted(id) => DeletesExact(s, [], id);
    case DeletedMany(ids) => DeletesExact(s, ids, 0);
  }

  ghost predicate ExactRun(s: State, ops: seq<Storage.Op>) {
    ops == [] ||
    (var init := ops[..|ops| - 1];
     ExactRun(s, init) && KeepsExact(Run(s, init), ops[|ops| - 1]))
  }

  lemma {:induction false} RunExact(s: State, ops: seq<Storage.Op>)
    requires Exact(s.metaBy, s.snap.index) && ExactRun(s, ops)
    ensures Exact(Run(s, ops).metaBy, Run(s, ops).snap.index)
  {
    hide Exact, KeepsExact, Apply;
    if ops != [] {
      var init := ops[..|ops| - 1];
      RunExact(s, init);
      ApplyExactIff(Run(s, init), ops[|ops| - 1]);
    }
  }

  lemma {:induction false} StoredDistinct(m: Store, ids: seq<nat>)
    requires NoRepeats(ids) && Keyed(m)
    ensures DistinctIds(Stored(m, ids))
    ensures forall r :: r in Stored(m, ids) ==> r.id in ids && r.id in m && m[r.id] == r
  {
    if ids != [] {
      var init, last := ids[..|ids| - 1], ids[|ids| - 1];
      StoredDistinct(m, init);
      assert ids == init + [last];
      assert last !in init;
      var a := Stored(m, init);
      assert forall i :: 0 <= i < |a| ==> a[i] in a;
    }
  }

  /** In runs whose operations keep the index exact, FindBy returns exactly the records a scan of the whole store would,
      each once. */
  lemma {:induction false} FindByIsScan(s: State, ops: seq<Storage.Op>, key: string, val: string)
    requires Exact(s.metaBy, s.snap.index) && ExactRun(s, ops)
    ensures var t := Run(s, ops);
            var m := t.snap.index;
            var found := match FindBy(t.metaBy, m, key, val) case Some(rs) => rs case None => [];
      && DistinctIds(found)
      && (forall r :: r in found <==> r.id in m && m[r.id] == r && HasMeta(r, key, val))
  {
    hide Exact;
    RunExact(s, ops);
    var t := Run(s, ops);
    ScanOfBucket(t.metaBy, t.snap.index, key, val);
  }

  lemma {:induction false} ScanOfBucket(mb: MetaBy, m: Store, key: string, val: string)
    requires Exact(mb, m)
    ensures var found := Stored(m, Bucket(mb, key, val));
      && DistinctIds(found)
      && (forall r :: r in found <==> r.id in m && m[r.id] == r && HasMeta(r, key, val))
  {
    hide Bucket;
    assert BucketOk(mb, m, key, val);
    var ids := Bucket(mb, key, val);
    StoredDistinct(m, ids);
    forall r: Record | r.id in m && m[r.id] == r && HasMeta(r, key, val)
      ensures r in Stored(m, ids)
    {
      StoredAre(m, ids, r);
    }
  }

  /** A freshly loaded store, indexed in any order, starts such a run. */
  lemma {:induction false} LoadedIsExact(m: Store, order: seq<Record>)
    requires Keyed(m) && Enumerates(order, m)
    ensures Exact(AddAll(map[], order), m)
    ensures Covers(AddAll(map[], order), m)
  {
    var empty: MetaBy := map[];
    assert Exact(empty, map[]);
    ExactBatch(empty, map[], order);
    Storage.InsertEnumerated(order, m);
    forall id, key, val | id in m && HasMeta(m[id], key, val)
      ensures id in Bucket(AddAll(empty, order), key, val)
    {
      assert BucketOk(AddAll(empty, order), m, key, val);
    }
  }

  // ----- the record store object -----

  /** Writing a bucket into the map of one key. A key that is not indexed has a nil map: the write panics. */
  function Assign(mb: MetaBy, key: string, val: string, bucket: seq<nat>): Option<MetaBy> {
    if key in mb then Some(mb[key := mb[key][val := bucket]]) else None
  }

  /** The search of a bucket for an id: the first occurrence, if any, is cut out. */
  method CutFirst(bucket: seq<nat>, id: nat) returns (rest: seq<nat>, found: bool)
    ensures found <==> id in bucket
    ensures !found ==> rest == bucket
    ensures found ==> exists i :: 0 <= i < |bucket| && bucket[i] == id && id !in bucket[..i]
                                  && rest == bucket[..i] + bucket[i + 1..]
  {
    for i := 0 to |bucket|
      invariant id !in bucket[..i]
    {
      if bucket[i] == id {
        return bucket[..i] + bucket[i + 1..], true;
      }
    }
    return bucket, false;
  }

  class RecordStore {
    const idx: Storage.Index
    var metaBy: MetaBy

    ghost function Value(): State
      reads this, idx
    {
      State(idx.Snap(), metaBy)
    }

    /** Load the files, then index every loaded record in the order the map is ranged over. */
    constructor (files: seq<Record>, order: seq<Record>, disk: Store)
      requires Enumerates(files, disk) && Enumerates(order, disk) && Keyed(disk)
      ensures fresh(idx)
      ensures Value().snap.index == disk && Value().snap.disk == disk
      ensures Storage.JustAbove(Value().snap.nextID, disk)
      ensures Value().metaBy == AddAll(map[], order)
    {
      idx := new Storage.Index(disk);
      metaBy := map[];
      new;
      idx.Load(files);
      Storage.LoadIs(Storage.Snapshot(map[], 1, disk), files);
      Storage.InsertEnumerated(files, disk);
      for k := 0 to |order|
        invariant idx.Snap() == Storage.LoadFiles(Storage.Snapshot(map[], 1, disk), files)
        invariant fresh(idx) && metaBy == AddAll(map[], order[..k])
      {
        assert order[..k + 1][..k] == order[..k];
        MetaIndexCreate(order[k]);
      }
      assert order[..|order|] == order;
    }

    /** File a record under each of its pairs, in whatever order the map yields them. */
    method MetaIndexCreate(rec: Record)
      modifies this`metaBy
      ensures metaBy == Add(old(metaBy), rec.id, MetaOf(rec))
    {
      hide Add, FileUnder;
      var meta := MetaOf(rec);
      var todo := meta.Keys;
      ghost var done: Meta := map[];
      AddNone(metaBy, rec.id);
      while todo != {}
        invariant todo <= meta.Keys
        invariant done == meta - todo
        invariant metaBy == Add(old(metaBy), rec.id, done)
        decreases |todo|
      {
        var key :| key in todo;
        var val := meta[key];
        AddOneMore(old(metaBy), rec.id, done, key, val);
        metaBy := FileUnder(metaBy, rec.id, key, val);
        todo := todo - {key};
        done := done[key := val];
      }
      assert done == meta;
    }

    method MetaIndexAll(recs: seq<Record>)
      modifies this`metaBy
      ensures metaBy == AddAll(old(metaBy), recs)
    {
      for k := 0 to |recs|
        invariant metaBy == AddAll(old(metaBy), recs[..k])
      {
        assert recs[..k + 1][..k] == recs[..k];
        MetaIndexUpdate(recs[k]);
      }
      assert recs[..|recs|] == recs;
    }

    /** The removal searches a bucket only under keys that are not indexed. There the map of values is nil, its
        buckets are empty and a write to it would panic: nothing is ever removed, and no write is reached. */
    method MetaIndexRemove(rec: Record) returns (panicked: bool)
      modifies this`metaBy
      ensures metaBy == old(metaBy) && !panicked
    {
      panicked := false;
      var todo := MetaOf(rec).Keys;
      while todo != {}
        invariant todo <= MetaOf(rec).Keys
        invariant metaBy == old(metaBy) && !panicked
        decreases |todo|
      {
        var key :| key in todo;
        var val := MetaOf(rec)[key];
        if key !in metaBy {
          var bucket := Bucket(metaBy, key, val);
          var rest, found := CutFirst(bucket, rec.id);
          var written := if found then Assign(metaBy, key, val, rest) else Some(metaBy);
          panicked := panicked || written.None?;
          metaBy := if written.Some? then written.value else metaBy;
        }
        todo := todo - {key};
      }
    }

    /** The removal for each record of a list. */
    method MetaIndexRemoveAll(recs: seq<Record>) returns (panicked: bool)
      modifies this`metaBy
      ensures metaBy == old(metaBy) && !panicked
    {
      panicked := false;
      for k := 0 to |recs|
        invariant metaBy == old(metaBy) && !panicked
      {
        var p := MetaIndexRemove(recs[k]);
        panicked := panicked || p;
      }
    }

    method MetaIndexUpdate(rec: Record)
      modifies this`metaBy
      ensures metaBy == Add(old(metaBy), rec.id, MetaOf(rec))
    {
      var _ := MetaIndexRemove(rec);
      MetaIndexCreate(rec);
    }

    /** The stored records filed under a pair. */
    method Find(key: string, val: string) returns (found: Option<seq<Record>>)
      ensures found == FindBy(metaBy, idx.index, key, val)
    {
      if key !in metaBy {
        return None;
      }
      var bucket := Bucket(metaBy, key, val);
      var records: seq<Record> := [];
      for k := 0 to |bucket|
        invariant records == Stored(idx.index, bucket[..k])
      {
        assert bucket[..k + 1][..k] == bucket[..k];
        if bucket[k] in idx.index {
          records := records + [idx.index[bucket[k]]];
        }
      }
      assert bucket[..|bucket|] == bucket;
      return Some(records);
    }

    method Create(rec: Record, flushed: bool) returns (ok: bool)
      modifies this`metaBy, idx
      ensures Value() == Apply(old(Value()), Storage.Created(rec, flushed))
      ensures ok == Storage.Create(old(Value()).snap, WithShape(rec), flushed).1
    {
      var r := WithShape(rec).(id := idx.nextID);
      ok := idx.CreateRecord(WithShape(rec), flushed);
      if ok {
        MetaIndexCreate(r);
      }
    }

    method CreateWithId(rec: Record, flushed: bool) returns (ok: bool)
      modifies this`metaBy, idx
      ensures Value() == Apply(old(Value()), Storage.CreatedWithId(rec, flushed))
      ensures ok == Storage.CreateWithId(old(Value()).snap, rec, flushed).1
    {
      ok := idx.CreateRecordWithId(rec, flushed);
      if ok {
        MetaIndexCreate(rec);
      }
    }

    method CreateManyWithId(recs: seq<Record>, failAt: nat) returns (ok: bool)
      modifies this`metaBy, idx
      ensures Value() == Apply(old(Value()), Storage.CreatedMany(recs, failAt))
      ensures ok == Storage.CreateMany(old(Value()).snap, recs, failAt).1
    {
      ok := idx.CreateManyWithId(recs, failAt);
      if ok {
        MetaIndexAll(recs);
      }
    }

    method Update(rec: Record, flushed: bool) returns (ok: bool)
      modifies this`metaBy, idx
      ensures Value() == Apply(old(Value()), Storage.Updated(rec, flushed))
      ensures ok == Storage.Update(old(Value()).snap, rec, flushed).1
    {
      ok := idx.UpdateRecord(rec, flushed);
      if ok {
        MetaIndexUpdate(rec);
      }
    }

    method Delete(id: nat) returns (gone: Option<Record>, panicked: bool)
      modifies this`metaBy, idx
      ensures Value() == Apply(old(Value()), Storage.Deleted(id)) && !panicked
      ensures gone == if id in old(idx.index) then Some(old(idx.index)[id]) else None
    {
      panicked := false;
      gone := idx.DeleteRecord(id);
      if gone.Some? {
        panicked := MetaIndexRemove(gone.value);
      }
    }

    method DeleteMany(ids: seq<nat>) returns (gone: seq<Record>, panicked: bool)
      modifies this`metaBy, idx
      ensures Value() == Apply(old(Value()), Storage.DeletedMany(ids)) && !panicked
      ensures gone == Storage.Removed(old(idx.Snap()), ids)
    {
      gone := idx.DeleteRecords(ids);
      panicked := MetaIndexRemoveAll(gone);
    }
  }
}
