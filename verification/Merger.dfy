/** Merging the results the nodes return for an oracle (master/mux_runner.go, defaultMerger). */
module Merger {

  datatype Json =
    | Null
    | Bool(b: bool)
    | Num(n: real)
    | Str(s: string)
    | List(items: seq<Json>)
    | Object(fields: map<string, Json>)

  datatype Outcome = Merged(value: Json) | Failed | Panicked

  /** The dynamic types the merger tells apart. */
  datatype Type = NilType | BoolType | NumType | StrType | ListType | ObjectType

  function TypeOf(j: Json): Type {
    match j
    case Null => NilType
    case Bool(_) => BoolType
    case Num(_) => NumType
    case Str(_) => StrType
    case List(_) => ListType
    case Object(_) => ObjectType
  }

  // ----- what merging means -----

  predicate SameType(rs: seq<Json>) {
    forall i :: 0 <= i < |rs| ==> TypeOf(rs[i]) == TypeOf(rs[0])
  }

  predicate AllObjects(rs: seq<Json>) {
    forall i :: 0 <= i < |rs| ==> rs[i].Object?
  }

  predicate AllLists(rs: seq<Json>) {
    forall i :: 0 <= i < |rs| ==> rs[i].List?
  }

  ghost predicate NoSharedKey(rs: seq<Json>)
    requires AllObjects(rs)
  {
    forall i, j :: 0 <= i < j < |rs| ==> rs[i].fields.Keys !! rs[j].fields.Keys
  }

  function Union(rs: seq<Json>): map<string, Json>
    requires AllObjects(rs)
  {
    if rs == [] then map[] else Union(rs[..|rs| - 1]) + rs[|rs| - 1].fields
  }

  function Concat(rs: seq<Json>): seq<Json>
    requires AllLists(rs)
  {
    if rs == [] then [] else Concat(rs[..|rs| - 1]) + rs[|rs| - 1].items
  }

  ghost function Merge(rs: seq<Json>): Outcome {
    if rs == [] then Merged(Null)
    else if rs[0].Null? then Panicked
    else if !SameType(rs) then Failed
    else if rs[0].Object? then
      assert AllObjects(rs) by { SameTypeShape(rs); }
      if NoSharedKey(rs) then Merged(Object(Union(rs))) else Failed
    else if rs[0].List? then
      assert AllLists(rs) by { SameTypeShape(rs); }
      Merged(List(Concat(rs)))
    else Failed
  }

  lemma SameTypeShape(rs: seq<Json>)
    requires SameType(rs) && rs != []
    ensures rs[0].Object? ==> AllObjects(rs)
    ensures rs[0].List? ==> AllLists(rs)
  {
  }

  // ----- keys -----

  ghost function KeyCount(rs: seq<Json>, key: string): nat
    requires AllObjects(rs)
  {
    if rs == [] then 0
    else KeyCount(rs[..|rs| - 1], key) + (if key in rs[|rs| - 1].fields then 1 else 0)
  }

  lemma {:induction false} KeyCountPositive(rs: seq<Json>, key: string, i: nat)
    requires AllObjects(rs) && i < |rs| && key in rs[i].fields
    ensures KeyCount(rs, key) >= 1
  {
    if i < |rs| - 1 {
      KeyCountPositive(rs[..|rs| - 1], key, i);
    }
  }

  lemma {:induction false} KeyCountZero(rs: seq<Json>, key: string)
    requires AllObjects(rs) && forall i :: 0 <= i < |rs| ==> key !in rs[i].fields
    ensures KeyCount(rs, key) == 0
  {
    if rs != [] {
      KeyCountZero(rs[..|rs| - 1], key);
    }
  }

  /** No two maps share a key exactly when no key is counted twice. */
  lemma {:induction false} NoSharedKeyIff(rs: seq<Json>)
    requires AllObjects(rs)
    ensures NoSharedKey(rs) <==> forall key :: KeyCount(rs, key) <= 1
  {
    if NoSharedKey(rs) {
      forall key
        ensures KeyCount(rs, key) <= 1
      {
        CountedOnce(rs, key);
      }
    } else {
      var i, j :| 0 <= i < j < |rs| && !(rs[i].fields.Keys !! rs[j].fields.Keys);
      var key :| key in rs[i].fields.Keys && key in rs[j].fields.Keys;
      CountedTwice(rs, key, i, j);
    }
  }

  lemma {:induction false} CountedOnce(rs: seq<Json>, key: string)
    requires AllObjects(rs) && NoSharedKey(rs)
    ensures KeyCount(rs, key) <= 1
  {
    if rs != [] {
      var init, last := rs[..|rs| - 1], rs[|rs| - 1];
      assert NoSharedKey(init) by {
        forall i, j | 0 <= i < j < |init| ensures init[i].fields.Keys !! init[j].fields.Keys {
          assert rs[i].fields.Keys !! rs[j].fields.Keys;
        }
      }
      CountedOnce(init, key);
      if key in last.fields {
        forall i | 0 <= i < |init|
          ensures key !in init[i].fields
        {
          assert rs[i].fields.Keys !! rs[|rs| - 1].fields.Keys;
        }
        KeyCountZero(init, key);
      }
    }
  }

  lemma {:induction false} CountedTwice(rs: seq<Json>, key: string, i: nat, j: nat)
    requires AllObjects(rs) && i < j < |rs| && key in rs[i].fields && key in rs[j].fields
    ensures KeyCount(rs, key) >= 2
  {
    if j < |rs| - 1 {
      CountedTwice(rs[..|rs| - 1], key, i, j);
    } else {
      KeyCountPositive(rs[..|rs| - 1], key, i);
    }
  }

  lemma {:induction false} NoSharedKeyPrefix(rs: seq<Json>)
    requires AllObjects(rs) && NoSharedKey(rs) && rs != []
    ensures NoSharedKey(rs[..|rs| - 1])
    ensures forall r :: r in rs[..|rs| - 1] ==> r.fields.Keys !! rs[|rs| - 1].fields.Keys
  {
    var init := rs[..|rs| - 1];
    forall i, j | 0 <= i < j < |init|
      ensures init[i].fields.Keys !! init[j].fields.Keys
    {
      assert rs[i].fields.Keys !! rs[j].fields.Keys;
    }
    forall r | r in init
      ensures r.fields.Keys !! rs[|rs| - 1].fields.Keys
    {
      var i :| 0 <= i < |init| && init[i] == r;
      assert rs[i].fields.Keys !! rs[|rs| - 1].fields.Keys;
    }
  }

  ghost predicate Gives(r: Json, key: string, v: Json) {
    r.Object? && key in r.fields && r.fields[key] == v
  }

  /** Without shared keys the merged map is the union: a key has the value some result gives it. */
  lemma {:induction false} UnionIs(rs: seq<Json>, key: string, v: Json)
    requires AllObjects(rs) && NoSharedKey(rs)
    ensures key in Union(rs) && Union(rs)[key] == v <==> exists r :: r in rs && Gives(r, key, v)
  {
    hide NoSharedKey;
    if rs != [] {
      var init, last := rs[..|rs| - 1], rs[|rs| - 1];
      NoSharedKeyPrefix(rs);
      UnionIs(init, key, v);
      assert forall r :: r in rs <==> r in init || r == last by {
        assert rs == init + [last];
      }
      if key in last.fields {
        forall r | r in init
          ensures !Gives(r, key, v)
        {
          assert key in last.fields.Keys;
        }
        assert Gives(last, key, v) <==> last.fields[key] == v;
      } else {
        assert !Gives(last, key, v);
      }
    }
  }

  // ----- the order of the results -----

  ghost function Without(s: seq<Json>, j: nat): seq<Json>
    requires j < |s|
  {
    s[..j] + s[j + 1..]
  }

  lemma {:induction false} WithoutLast(s: seq<Json>, j: nat)
    requires j < |s| - 1
    ensures var t := Without(s, j);
            t != [] && t[|t| - 1] == s[|s| - 1] && t[..|t| - 1] == Without(s[..|s| - 1], j)
    ensures AllObjects(s) ==> AllObjects(Without(s, j))
    ensures AllLists(s) ==> AllLists(Without(s, j))
  {
  }

  /** Two orderings of the same results: one can drop the other's last element anywhere it occurs. */
  lemma DropLastOf(a: seq<Json>, b: seq<Json>) returns (j: nat)
    requires multiset(a) == multiset(b) && a != []
    ensures j < |b| && b[j] == a[|a| - 1]
    ensures multiset(a[..|a| - 1]) == multiset(Without(b, j))
  {
    var x := a[|a| - 1];
    assert a == a[..|a| - 1] + [x];
    assert x in multiset(b);
    j :| 0 <= j < |b| && b[j] == x;
    assert b == b[..j] + [x] + b[j + 1..];
    assert multiset(b) == multiset(b[..j]) + multiset{x} + multiset(b[j + 1..]);
    assert multiset(a) == multiset(a[..|a| - 1]) + multiset{x};
    assert multiset(Without(b, j)) == multiset(b[..j]) + multiset(b[j + 1..]);
    assert multiset(Without(b, j)) == multiset(b) - multiset{x};
    assert multiset(a[..|a| - 1]) == multiset(a) - multiset{x};
  }

  lemma SameMembers(a: seq<Json>, b: seq<Json>, x: Json)
    requires multiset(a) == multiset(b)
    ensures x in a <==> x in b
    ensures |a| == |b|
  {
    assert x in multiset(a) <==> x in multiset(b);
    assert |multiset(a)| == |a| && |multiset(b)| == |b|;
  }

  lemma {:induction false} KeyCountWithout(s: seq<Json>, j: nat, key: string)
    requires AllObjects(s) && j < |s|
    ensures AllObjects(Without(s, j))
    ensures KeyCount(s, key) == KeyCount(Without(s, j), key) + (if key in s[j].fields then 1 else 0)
  {
    var t := Without(s, j);
    if j == |s| - 1 {
      assert t == s[..|s| - 1];
    } else {
      var init := s[..|s| - 1];
      KeyCountWithout(init, j, key);
      WithoutLast(s, j);
      assert KeyCount(t, key) == KeyCount(Without(init, j), key) + (if key in s[|s| - 1].fields then 1 else 0);
    }
  }

  lemma {:induction false} KeyCountOrder(a: seq<Json>, b: seq<Json>, key: string)
    requires multiset(a) == multiset(b) && AllObjects(a) && AllObjects(b)
    ensures KeyCount(a, key) == KeyCount(b, key)
  {
    SameMembers(a, b, Null);
    if a != [] {
      var j := DropLastOf(a, b);
      KeyCountWithout(b, j, key);
      KeyCountOrder(a[..|a| - 1], Without(b, j), key);
    }
  }

  lemma {:induction false} ConcatWithout(s: seq<Json>, j: nat)
    requires AllLists(s) && j < |s|
    ensures AllLists(Without(s, j))
    ensures multiset(Concat(s)) == multiset(Concat(Without(s, j))) + multiset(s[j].items)
  {
    var t := Without(s, j);
    if j == |s| - 1 {
      assert t == s[..|s| - 1];
    } else {
      var init := s[..|s| - 1];
      ConcatWithout(init, j);
      WithoutLast(s, j);
      assert Concat(t) == Concat(Without(init, j)) + s[|s| - 1].items;
    }
  }

  lemma {:induction false} ConcatOrder(a: seq<Json>, b: seq<Json>)
    requires multiset(a) == multiset(b) && AllLists(a) && AllLists(b)
    ensures multiset(Concat(a)) == multiset(Concat(b))
  {
    SameMembers(a, b, Null);
    if a != [] {
      var j := DropLastOf(a, b);
      ConcatWithout(b, j);
      ConcatOrder(a[..|a| - 1], Without(b, j));
    }
  }

  lemma {:induction false} NoSharedKeyOrder(a: seq<Json>, b: seq<Json>)
    requires multiset(a) == multiset(b) && AllObjects(a) && AllObjects(b) && NoSharedKey(a)
    ensures NoSharedKey(b)
  {
    forall key
      ensures KeyCount(b, key) <= 1
    {
      CountedOnce(a, key);
      KeyCountOrder(a, b, key);
    }
    NoSharedKeyIff(b);
  }

  lemma {:induction false} UnionOrder(a: seq<Json>, b: seq<Json>)
    requires multiset(a) == multiset(b) && AllObjects(a) && AllObjects(b)
    ensures NoSharedKey(a) <==> NoSharedKey(b)
    ensures NoSharedKey(a) ==> Union(a) == Union(b)
  {
    hide NoSharedKey, Union;
    if NoSharedKey(a) {
      NoSharedKeyOrder(a, b);
      forall key | key in Union(a)
        ensures key in Union(b) && Union(b)[key] == Union(a)[key]
      {
        UnionForward(a, b, key);
      }
      forall key | key in Union(b)
        ensures key in Union(a)
      {
        UnionForward(b, a, key);
      }
      assert Union(a) == Union(b);
    }
    if NoSharedKey(b) {
      NoSharedKeyOrder(b, a);
    }
  }

  lemma {:induction false} UnionForward(a: seq<Json>, b: seq<Json>, key: string)
    requires multiset(a) == multiset(b) && AllObjects(a) && AllObjects(b) && NoSharedKey(a) && NoSharedKey(b)
    requires key in Union(a)
    ensures key in Union(b) && Union(b)[key] == Union(a)[key]
  {
    var v := Union(a)[key];
    UnionIs(a, key, v);
    UnionIs(b, key, v);
    var r :| r in a && key in r.fields && r.fields[key] == v;
    SameMembers(a, b, r);
  }

  /** Equal up to the order of a merged list. */
  ghost predicate SameOutcome(x: Outcome, y: Outcome) {
    match (x, y)
    case (Merged(List(a)), Merged(List(b))) => multiset(a) == multiset(b)
    case (Merged(v), Merged(w)) => v == w
    case (Failed, Failed) => true
    case (Panicked, Panicked) => true
    case _ => false
  }

  lemma SameTypeOrder(a: seq<Json>, b: seq<Json>)
    requires multiset(a) == multiset(b) && a != [] && b != []
    ensures SameType(a) ==> SameType(b) && TypeOf(b[0]) == TypeOf(a[0])
  {
    if SameType(a) {
      forall i | 0 <= i < |b|
        ensures TypeOf(b[i]) == TypeOf(a[0])
      {
        SameMembers(a, b, b[i]);
        var k :| 0 <= k < |a| && a[k] == b[i];
        assert TypeOf(a[k]) == TypeOf(a[0]);
      }
    }
  }

  /** Two deliveries of the same results merge alike exactly when both or neither start with a null. In
      particular the order never matters when no result is null. */
  lemma {:induction false} OrderDoesNotMatterIff(a: seq<Json>, b: seq<Json>)
    requires multiset(a) == multiset(b)
    ensures |a| == |b|
    ensures SameOutcome(Merge(a), Merge(b)) <==> (a == [] || (a[0].Null? <==> b[0].Null?))
  {
    SameMembers(a, b, Null);
    if a != [] && !a[0].Null? && !b[0].Null? {
      SameTypeOrder(a, b);
      SameTypeOrder(b, a);
      if SameType(a) {
        SameTypeShape(a);
        SameTypeShape(b);
        if a[0].Object? {
          UnionOrder(a, b);
        } else if a[0].List? {
          ConcatOrder(a, b);
        }
      }
    }
  }

  // ----- what a merge returns -----

  /** Where the items of result i start in the merged list. */
  ghost function Offset(rs: seq<Json>, i: nat): nat
    requires AllLists(rs) && i <= |rs|
  {
    if i == 0 then 0 else Offset(rs, i - 1) + |rs[i - 1].items|
  }

  lemma {:induction false} OffsetPrefix(rs: seq<Json>, k: nat, i: nat)
    requires AllLists(rs) && i <= k <= |rs|
    ensures Offset(rs[..k], i) == Offset(rs, i)
  {
    if i > 0 {
      OffsetPrefix(rs, k, i - 1);
    }
  }

  lemma {:induction false} OffsetGrows(rs: seq<Json>, i: nat, j: nat)
    requires AllLists(rs) && i < j <= |rs|
    ensures Offset(rs, i) + |rs[i].items| <= Offset(rs, j)
  {
    if i < j - 1 {
      OffsetGrows(rs, i, j - 1);
    }
  }

  lemma SliceOfFront(a: seq<Json>, b: seq<Json>, lo: nat, hi: nat)
    requires lo <= hi <= |a|
    ensures (a + b)[lo..hi] == a[lo..hi]
  {
  }

  lemma SliceOfBack(a: seq<Json>, b: seq<Json>)
    ensures (a + b)[|a|..|a| + |b|] == b
  {
  }

  /** The merged list is made of the given lists, in order and nothing else. */
  lemma {:induction false} ConcatIs(rs: seq<Json>, i: nat)
    requires AllLists(rs)
    ensures |Concat(rs)| == Offset(rs, |rs|)
    ensures i < |rs| ==>
              && Offset(rs, i) + |rs[i].items| <= |Concat(rs)|
              && Concat(rs)[Offset(rs, i)..Offset(rs, i) + |rs[i].items|] == rs[i].items
  {
    if rs != [] {
      var k := |rs| - 1;
      var init := rs[..k];
      ConcatIs(init, i);
      OffsetPrefix(rs, k, k);
      if i < k {
        OffsetPrefix(rs, k, i);
        OffsetGrows(rs, i, k);
        SliceOfFront(Concat(init), rs[k].items, Offset(rs, i), Offset(rs, i) + |rs[i].items|);
        assert init[i] == rs[i];
      } else {
        SliceOfBack(Concat(init), rs[k].items);
      }
    }
  }

  /** Nothing gives null; a leading null panics; maps without a common key give all their entries; lists give all their
      items in order; anything else fails. */
  lemma {:induction false} MergeMeans(rs: seq<Json>, key: string, v: Json, i: nat)
    ensures rs == [] ==> Merge(rs) == Merged(Null)
    ensures rs != [] ==> (Merge(rs) == Panicked <==> rs[0] == Null)
    ensures rs != [] && AllObjects(rs) && NoSharedKey(rs) ==>
      && Merge(rs).Merged? && Merge(rs).value.Object?
      && (key in Merge(rs).value.fields && Merge(rs).value.fields[key] == v <==>
          exists r :: r in rs && key in r.fields && r.fields[key] == v)
    ensures rs != [] && AllLists(rs) ==>
      && Merge(rs).Merged? && Merge(rs).value.List? && |Merge(rs).value.items| == Offset(rs, |rs|)
      && (i < |rs| ==>
            && Offset(rs, i) + |rs[i].items| <= Offset(rs, |rs|)
            && Merge(rs).value.items[Offset(rs, i)..Offset(rs, i) + |rs[i].items|] == rs[i].items)
    ensures rs != [] && rs[0] != Null && !AllLists(rs) && !(AllObjects(rs) && NoSharedKey(rs)) ==> Merge(rs) == Failed
  {
    hide Union, Concat, NoSharedKey;
    if rs != [] && AllObjects(rs) && NoSharedKey(rs) {
      UnionIs(rs, key, v);
      assert forall r :: r in rs ==> (Gives(r, key, v) <==> key in r.fields && r.fields[key] == v);
    }
    if rs != [] && AllLists(rs) {
      ConcatIs(rs, i);
    }
    if rs != [] && SameType(rs) {
      SameTypeShape(rs);
    }
  }

  // ----- the merger -----

  /** The first k results are of the first one's type and have been merged into `merged`. */
  ghost predicate MergedUpTo(rs: seq<Json>, k: nat, merged: Json)
    requires k <= |rs| && rs != []
  {
    && (forall i :: 0 <= i < k ==> TypeOf(rs[i]) == TypeOf(rs[0]))
    && (rs[0].Object? ==>
          && AllObjects(rs[..k]) && NoSharedKey(rs[..k]) && merged == Object(Union(rs[..k])))
    && (rs[0].List? ==> AllLists(rs[..k]) && merged == List(Concat(rs[..k])))
  }

  lemma {:induction false} MergeObject(rs: seq<Json>, k: nat, merged: Json)
    requires k < |rs| && MergedUpTo(rs, k, merged) && rs[0].Object? && rs[k].Object?
    requires merged.fields.Keys !! rs[k].fields.Keys
    ensures MergedUpTo(rs, k + 1, Object(merged.fields + rs[k].fields))
  {
    var pre := rs[..k + 1];
    assert pre[..k] == rs[..k] && pre[k] == rs[k];
    UnionKeys(rs[..k]);
    forall i, j | 0 <= i < j < |pre|
      ensures pre[i].fields.Keys !! pre[j].fields.Keys
    {
      if j < k {
        assert rs[..k][i].fields.Keys !! rs[..k][j].fields.Keys;
      } else {
        assert forall key :: key in rs[..k][i].fields ==> key in Union(rs[..k]);
      }
    }
  }

  lemma {:induction false} MergeList(rs: seq<Json>, k: nat, merged: Json)
    requires k < |rs| && MergedUpTo(rs, k, merged) && rs[0].List? && rs[k].List?
    ensures MergedUpTo(rs, k + 1, List(merged.items + rs[k].items))
  {
    assert rs[..k + 1][..k] == rs[..k];
  }

  lemma {:induction false} MergedAll(rs: seq<Json>, merged: Json)
    requires rs != [] && MergedUpTo(rs, |rs|, merged) && (rs[0].Object? || rs[0].List?)
    ensures Merge(rs) == Merged(merged)
  {
    assert rs[..|rs|] == rs;
  }

  method DefaultMerger(results: seq<Json>) returns (o: Outcome)
    ensures o == Merge(results)
  {
    if results == [] {
      return Merged(Null);
    }
    if results[0].Null? {
      return Panicked;  // a method call on the nil type of a null
    }
    if !results[0].Object? && !results[0].List? {
      return Failed;    // the first result already is of an unsupported type
    }
    var merged := if results[0].Object? then Object(map[]) else List([]);
    assert results[..0] == [];
    for k := 0 to |results|
      invariant MergedUpTo(results, k, merged)
    {
      var res := results[k];
      if TypeOf(res) != TypeOf(results[0]) {
        assert !SameType(results);
        return Failed;
      }
      if res.Object? {
        var ok, all := MergeFields(merged.fields, res.fields);
        if !ok {
          SharedFails(results, k);
          return Failed;
        }
        MergeObject(results, k, merged);
        merged := Object(all);
      } else {
        MergeList(results, k, merged);
        merged := List(merged.items + res.items);
      }
    }
    MergedAll(results, merged);
    return Merged(merged);
  }

  /** The inner loop: copy the fields, in whatever order the map yields them, until one is already there. */
  method MergeFields(into: map<string, Json>, fields: map<string, Json>) returns (ok: bool, all: map<string, Json>)
    ensures ok <==> into.Keys !! fields.Keys
    ensures ok ==> all == into + fields
  {
    all := into;
    var todo := fields.Keys;
    NoneCopied(into, fields);
    while todo != {}
      invariant todo <= fields.Keys && CopiedBut(into, fields, todo, all)
      decreases |todo|
    {
      hide CopiedBut;
      var key :| key in todo;
      CopyOneMore(into, fields, todo, all, key);
      if key in all {
        return false, all;
      }
      all := all[key := fields[key]];
      todo := todo - {key};
    }
    AllCopied(into, fields, all);
    return true, all;
  }

  /** The fields outside `todo` have been copied, and none of them was there before. */
  ghost predicate CopiedBut(into: map<string, Json>, fields: map<string, Json>, todo: set<string>,
                            all: map<string, Json>)
  {
    all == into + (fields - todo) && into.Keys !! fields.Keys - todo
  }

  lemma NoneCopied(into: map<string, Json>, fields: map<string, Json>)
    ensures CopiedBut(into, fields, fields.Keys, into)
  {
  }

  lemma AllCopied(into: map<string, Json>, fields: map<string, Json>, all: map<string, Json>)
    requires CopiedBut(into, fields, {}, all)
    ensures all == into + fields && into.Keys !! fields.Keys
  {
    assert fields - {} == fields;
  }

  lemma CopyOneMore(into: map<string, Json>, fields: map<string, Json>, todo: set<string>, all: map<string, Json>,
                    key: string)
    requires CopiedBut(into, fields, todo, all) && key in todo && todo <= fields.Keys
    ensures key in all <==> key in into
    ensures key !in all ==> CopiedBut(into, fields, todo - {key}, all[key := fields[key]])
  {
    if key !in all {
      assert all[key := fields[key]] == into + (fields - (todo - {key}));
    }
  }

  lemma {:induction false} UnionKeys(rs: seq<Json>)
    requires AllObjects(rs)
    ensures forall key :: key in Union(rs) <==> exists i :: 0 <= i < |rs| && key in rs[i].fields
  {
    if rs != [] {
      var init := rs[..|rs| - 1];
      UnionKeys(init);
      forall key
        ensures key in Union(rs) <==> exists i :: 0 <= i < |rs| && key in rs[i].fields
      {
        if key in Union(init) {
          var i :| 0 <= i < |init| && key in init[i].fields;
          assert key in rs[i].fields;
        }
        if i :| 0 <= i < |rs| && key in rs[i].fields {
          assert i < |init| ==> key in init[i].fields;
        }
      }
    }
  }

  /** A key met a second time makes the whole merge fail. */
  lemma {:induction false} SharedFails(rs: seq<Json>, k: nat)
    requires k < |rs| && rs[0].Object? && rs[k].Object? && AllObjects(rs[..k])
    requires !(Union(rs[..k]).Keys !! rs[k].fields.Keys)
    ensures Merge(rs) == Failed
  {
    UnionKeys(rs[..k]);
    var key :| key in Union(rs[..k]) && key in rs[k].fields;
    var i :| 0 <= i < k && key in rs[..k][i].fields;
    assert key in rs[i].fields.Keys * rs[k].fields.Keys;
    if SameType(rs) {
      SameTypeShape(rs);
      assert !(rs[i].fields.Keys !! rs[k].fields.Keys);
    }
  }
}
