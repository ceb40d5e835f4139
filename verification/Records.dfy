/** Records as values, and the record maps that every node keeps in memory and on disk. */
module Records {
  import opened Wrappers

  const TWO64: nat := 0x1_0000_0000_0000_0000

  /** A nil field is `None`: an update leaves such a field of the stored record alone. */
  datatype Record = Record(
    id: nat,
    meta: Option<map<string, string>>,
    data: Option<seq<real>>,
    shape: Option<seq<nat>>)

  type Store = map<nat, Record>

  /** Every record is filed under its own identifier. */
  ghost predicate Keyed(m: Store) {
    forall id :: id in m ==> m[id].id == id
  }

  function Ids(rs: seq<Record>): set<nat> {
    set r | r in rs :: r.id
  }

  ghost predicate DistinctIds(rs: seq<Record>) {
    forall i, j :: 0 <= i < j < |rs| ==> rs[i].id != rs[j].id
  }

  ghost predicate NoRepeats(ids: seq<nat>) {
    forall i, j :: 0 <= i < j < |ids| ==> ids[i] != ids[j]
  }

  /** RecordDriver.Copy: the fields the update carries replace the stored ones, the identifier stays. */
  function CopyFields(dst: Record, src: Record): (r: Record) {
    Record(dst.id,
           if src.meta.Some? then src.meta else dst.meta,
           if src.data.Some? then src.data else dst.data,
           if src.shape.Some? then src.shape else dst.shape)
  }

  /** The record after an update: its id as it was, each field the update's if the update carries one. */
  ghost predicate Overlaid(before: Record, update: Record, after: Record) {
    && after.id == before.id
    && (update.meta.Some? ==> after.meta == update.meta) && (update.meta.None? ==> after.meta == before.meta)
    && (update.data.Some? ==> after.data == update.data) && (update.data.None? ==> after.data == before.data)
    && (update.shape.Some? ==> after.shape == update.shape) && (update.shape.None? ==> after.shape == before.shape)
  }

  /** The map after filing `rs` one after the other: a later record replaces an earlier one with its id. */
  function Insert(m: Store, rs: seq<Record>): Store {
    if rs == [] then m
    else
      var last := rs[|rs| - 1];
      Insert(m, rs[..|rs| - 1])[last.id := last]
  }

  lemma IdsSplit(rs: seq<Record>)
    requires rs != []
    ensures Ids(rs) == Ids(rs[..|rs| - 1]) + {rs[|rs| - 1].id}
  {
  }

  lemma {:induction false} InsertKeys(m: Store, rs: seq<Record>)
    ensures Insert(m, rs).Keys == m.Keys + Ids(rs)
    ensures Keyed(m) ==> Keyed(Insert(m, rs))
  {
    if rs != [] {
      InsertKeys(m, rs[..|rs| - 1]);
      IdsSplit(rs);
    }
  }

  /** What a key of the resulting map is bound to. */
  lemma {:induction false} InsertLookup(m: Store, rs: seq<Record>, id: nat)
    requires id in Insert(m, rs)
    ensures id !in Ids(rs) ==> id in m && Insert(m, rs)[id] == m[id]
    ensures id in Ids(rs) ==> Insert(m, rs)[id] in rs && Insert(m, rs)[id].id == id
  {
    if rs != [] {
      var init := rs[..|rs| - 1];
      IdsSplit(rs);
      InsertKeys(m, init);
      if id != rs[|rs| - 1].id {
        InsertLookup(m, init, id);
      }
    }
  }

  /** With distinct ids every inserted record is found under its id. */
  lemma InsertFinds(m: Store, rs: seq<Record>, r: Record)
    requires DistinctIds(rs) && r in rs
    ensures r.id in Insert(m, rs) && Insert(m, rs)[r.id] == r
  {
  }

  lemma AddOneSize(m: Store, r: Record)
    requires r.id !in m
    ensures |m[r.id := r]| == |m| + 1
  {
  }

  /** Fresh distinct ids add exactly one entry each. */
  lemma {:induction false} InsertSize(m: Store, rs: seq<Record>)
    requires DistinctIds(rs) && Ids(rs) !! m.Keys
    ensures |Insert(m, rs)| == |m| + |rs|
  {
    if rs != [] {
      var init := rs[..|rs| - 1];
      var last := rs[|rs| - 1];
      IdsSplit(rs);
      InsertSize(m, init);
      InsertKeys(m, init);
      assert last.id !in Ids(init);
      AddOneSize(Insert(m, init), last);
    }
  }

  lemma {:induction false} IdsSize(rs: seq<Record>)
    requires DistinctIds(rs)
    ensures |Ids(rs)| == |rs|
  {
    if rs != [] {
      IdsSplit(rs);
      IdsSize(rs[..|rs| - 1]);
      assert rs[|rs| - 1].id !in Ids(rs[..|rs| - 1]);
    } else {
      assert Ids(rs) == {};
    }
  }

  lemma RemoveSize(m: Store, ids: set<nat>)
    requires ids <= m.Keys
    ensures |m - ids| == |m| - |ids|
  {
  }

  lemma SameMap(a: Store, b: Store)
    requires a.Keys == b.Keys && forall id :: id in b ==> a[id] == b[id]
    ensures a == b
  {
  }

  lemma {:induction false} InsertConcat(m: Store, a: seq<Record>, b: seq<Record>)
    ensures Insert(Insert(m, a), b) == Insert(m, a + b)
  {
    if b == [] {
      assert a + b == a;
    } else {
      InsertConcat(m, a, b[..|b| - 1]);
      assert (a + b)[..|a + b| - 1] == a + b[..|b| - 1];
    }
  }
}
