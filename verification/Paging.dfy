/** A node's paged listing of its records (node/service/records.go, ListRecords). */
module Paging {
  import opened Records

  // ----- the records of a store in id order -----

  ghost predicate IsMax(s: set<nat>, x: nat) {
    x in s && forall y :: y in s ==> y <= x
  }

  lemma {:induction false} MaxExists(s: set<nat>)
    requires s != {}
    ensures exists x :: IsMax(s, x)
    decreases |s|
  {
    var x :| x in s;
    if s == {x} {
      assert IsMax(s, x);
    } else {
      MaxExists(s - {x});
      var y :| IsMax(s - {x}, y);
      assert s == (s - {x}) + {x};
      assert IsMax(s, if x < y then y else x);
    }
  }

  function MaxOf(s: set<nat>): (x: nat)
    requires s != {}
    ensures IsMax(s, x)
  {
    MaxExists(s);
    var x :| x in s && forall y :: y in s ==> y <= x;
    x
  }

  /** All records of a store, in strictly increasing id order. */
  function SortedRecords(m: Store): (rs: seq<Record>)
    ensures |rs| == |m|
    decreases |m|
  {
    if m == map[] then []
    else
      KeysNonEmpty(m);
      var x := MaxOf(m.Keys);
      RemoveSize(m, {x});
      SortedRecords(m - {x}) + [m[x]]
  }

  lemma KeysNonEmpty(m: Store)
    requires m != map[]
    ensures m.Keys != {}
  {
  }

  /** `all` lists every record of `m` once, in some order: what ranging over the node's map yields. */
  ghost predicate Enumerates(all: seq<Record>, m: Store) {
    && DistinctIds(all)
    && forall r :: r in all <==> r.id in m && m[r.id] == r
  }

  ghost predicate IncreasingIds(rs: seq<Record>) {
    forall i, j :: 0 <= i < j < |rs| ==> rs[i].id < rs[j].id
  }

  lemma ExtendListing(rs: seq<Record>, m: Store, x: nat)
    requires Keyed(m) && IsMax(m.Keys, x)
    requires Enumerates(rs, m - {x}) && IncreasingIds(rs)
    ensures Enumerates(rs + [m[x]], m) && IncreasingIds(rs + [m[x]])
  {
  }

  lemma {:induction false} SortedLast(m: Store)
    requires m != map[]
    ensures m.Keys != {} && |m - {MaxOf(m.Keys)}| < |m|
    ensures SortedRecords(m) == SortedRecords(m - {MaxOf(m.Keys)}) + [m[MaxOf(m.Keys)]]
  {
  }

  lemma {:induction false} SortedRecordsEnumerates(m: Store)
    requires Keyed(m)
    ensures Enumerates(SortedRecords(m), m) && IncreasingIds(SortedRecords(m))
    decreases |m|, 1
  {
    if m == map[] {
      assert SortedRecords(m) == [];
    } else {
      SortedStep(m);
    }
  }

  lemma {:induction false} SortedStep(m: Store)
    requires Keyed(m) && m != map[]
    ensures Enumerates(SortedRecords(m), m) && IncreasingIds(SortedRecords(m))
    decreases |m|, 0
  {
    hide SortedRecords, Enumerates, IncreasingIds, MaxOf;
    SortedLast(m);
    SortedRecordsEnumerates(m - {MaxOf(m.Keys)});
    ExtendListing(SortedRecords(m - {MaxOf(m.Keys)}), m, MaxOf(m.Keys));
  }

  /** Dropping the last record of an increasing listing drops exactly that record. */
  lemma DropLast(a: seq<Record>, r: Record)
    requires IncreasingIds(a) && a != []
    ensures r in a[..|a| - 1] <==> r in a && r != a[|a| - 1]
    ensures r in a ==> r.id <= a[|a| - 1].id
  {
  }

  /** Two increasing listings of one store are the same listing, so the sorting algorithm does not matter. */
  lemma {:induction false} IncreasingIsUnique(a: seq<Record>, b: seq<Record>)
    requires IncreasingIds(a) && IncreasingIds(b)
    requires forall r :: r in a <==> r in b
    ensures a == b
  {
    assert a != [] ==> a[0] in b;
    assert b != [] ==> b[0] in a;
    if a != [] {
      var x, y := a[|a| - 1], b[|b| - 1];
      assert x in b && y in a;
      DropLast(a, y);
      DropLast(b, x);
      LastIds(a, x, y);
      var a', b' := a[..|a| - 1], b[..|b| - 1];
      forall r
        ensures r in a' <==> r in b'
      {
        DropLast(a, r);
        DropLast(b, r);
      }
      IncreasingIsUnique(a', b');
      assert a == a' + [x] && b == b' + [y];
    }
  }

  lemma LastIds(a: seq<Record>, x: Record, y: Record)
    requires IncreasingIds(a) && x in a && y in a && x.id == y.id
    ensures x == y
  {
  }

  // ----- pages -----

  function AtLeastOne(n: nat): nat { if n < 1 then 1 else n }

  /** Number of pages of `perPage` records needed for `total` records. */
  function PageCount(total: nat, perPage: nat): nat {
    var n := AtLeastOne(perPage);
    total / n + (if total % n > 0 then 1 else 0)
  }

  function Start(page: nat, perPage: nat): nat {
    (AtLeastOne(page) - 1) * AtLeastOne(perPage)
  }

  function Slice(rs: seq<Record>, page: nat, perPage: nat): seq<Record> {
    var start := Start(page, perPage);
    var end := start + AtLeastOne(perPage);
    if |rs| <= start then [] else if |rs| <= end then rs[start..] else rs[start..end]
  }

  /** The records of page `page` of a store, with both arguments raised to at least 1. */
  function Page(m: Store, page: nat, perPage: nat): seq<Record> {
    Slice(SortedRecords(m), page, perPage)
  }

  function Smaller(a: nat, b: nat): nat { if a <= b then a else b }

  lemma FirstSlice(rs: seq<Record>, n: nat)
    ensures Slice(rs, 1, n) == rs[..Smaller(AtLeastOne(n), |rs|)]
  {
  }

  lemma PrefixDistinct(rs: seq<Record>, k: nat)
    requires DistinctIds(rs) && k <= |rs|
    ensures DistinctIds(rs[..k]) && forall r :: r in rs[..k] ==> r in rs
  {
  }

  /** Page 1 holds the first records by id, as many as asked for (at least one) or as many as there are. */
  lemma FirstPage(m: Store, n: nat)
    requires Keyed(m)
    ensures var rs := Page(m, 1, n);
      && |rs| == Smaller(AtLeastOne(n), |m|)
      && DistinctIds(rs)
      && Ids(rs) <= m.Keys
      && (forall r :: r in rs ==> r.id in m && m[r.id] == r)
  {
    hide Slice;
    SortedRecordsEnumerates(m);
    var all := SortedRecords(m);
    FirstSlice(all, n);
    PrefixDistinct(all, Smaller(AtLeastOne(n), |m|));
  }

  lemma AmongFirst(rs: seq<Record>, k: nat, j: nat)
    ensures j < k <= |rs| ==> rs[j].id in Ids(rs[..k])
  {
    if j < k <= |rs| {
      assert rs[..k][j] == rs[j];
    }
  }

  /** Every record on page 1 comes before every record that is not. */
  lemma LowestFirst(m: Store, n: nat, id: nat)
    requires Keyed(m)
    ensures var rs := Page(m, 1, n);
            id in m && id !in Ids(rs) ==> forall r :: r in rs ==> r.id < id
  {
    hide Slice;
    SortedRecordsEnumerates(m);
    var all, k := SortedRecords(m), Smaller(AtLeastOne(n), |m|);
    FirstSlice(all, n);
    if id in m && id !in Ids(all[..k]) {
      assert m[id] in all;
      var j :| 0 <= j < |all| && all[j] == m[id];
      AmongFirst(all, k, j);
    }
  }

  function ConcatPages(rs: seq<Record>, perPage: nat, pages: nat): seq<Record> {
    if pages == 0 then [] else ConcatPages(rs, perPage, pages - 1) + Slice(rs, pages, perPage)
  }

  lemma MulStep(p: nat, n: nat)
    requires p > 0
    ensures (p - 1) * n + n == p * n
  {
  }

  lemma SliceIs(rs: seq<Record>, page: nat, perPage: nat, start: nat)
    requires Start(page, perPage) == start
    ensures Slice(rs, page, perPage) == rs[Smaller(start, |rs|)..Smaller(start + AtLeastOne(perPage), |rs|)]
  {
  }

  lemma {:induction false} PagesArePrefixes(rs: seq<Record>, perPage: nat, pages: nat)
    ensures ConcatPages(rs, perPage, pages) == rs[..Smaller(pages * AtLeastOne(perPage), |rs|)]
  {
    hide Slice;
    if pages > 0 {
      var n := AtLeastOne(perPage);
      var before := (pages - 1) * n;
      PagesArePrefixes(rs, perPage, pages - 1);
      SliceIs(rs, pages, perPage, before);
      MulStep(pages, n);
      PrefixGrows(rs, before, before + n);
    }
  }

  lemma PrefixGrows(rs: seq<Record>, a: nat, b: nat)
    requires a <= b
    ensures rs[..Smaller(a, |rs|)] + rs[Smaller(a, |rs|)..Smaller(b, |rs|)] == rs[..Smaller(b, |rs|)]
  {
  }

  lemma CoverAll(total: nat, n: nat, p: nat)
    requires n > 0
    ensures PageCount(total, n) * n >= total
    ensures p > PageCount(total, n) ==> (p - 1) * n >= total
    ensures PageCount(total, n) > 0 ==> (PageCount(total, n) - 1) * n < total
  {
  }

  lemma MulMono(a: nat, b: nat, n: nat)
    requires a <= b
    ensures a * n <= b * n
  {
  }

  lemma PageBounds(total: nat, perPage: nat, page: nat)
    ensures PageCount(total, perPage) * AtLeastOne(perPage) >= total
    ensures page > PageCount(total, perPage) ==> Start(page, perPage) >= total
    ensures 1 <= page <= PageCount(total, perPage) ==> Start(page, perPage) < total
  {
    var n := AtLeastOne(perPage);
    CoverAll(total, n, page);
    if 1 <= page <= PageCount(total, perPage) {
      MulMono(page - 1, PageCount(total, perPage) - 1, n);
    }
  }

  lemma PagesConcat(rs: seq<Record>, perPage: nat)
    ensures ConcatPages(rs, perPage, PageCount(|rs|, perPage)) == rs
  {
    PageBounds(|rs|, perPage, 0);
    PagesArePrefixes(rs, perPage, PageCount(|rs|, perPage));
  }

  lemma EmptyPages(rs: seq<Record>, perPage: nat, page: nat)
    ensures page > PageCount(|rs|, perPage) ==> Slice(rs, page, perPage) == []
    ensures 1 <= page <= PageCount(|rs|, perPage) ==> Slice(rs, page, perPage) != []
  {
    PageBounds(|rs|, perPage, page);
  }

  /** Pages 1 to PageCount partition the records, in strictly increasing id order; none of them is empty
      and every later page is. */
  lemma PagesPartition(m: Store, perPage: nat, page: nat)
    requires Keyed(m)
    ensures ConcatPages(SortedRecords(m), perPage, PageCount(|m|, perPage)) == SortedRecords(m)
    ensures IncreasingIds(SortedRecords(m)) && Enumerates(SortedRecords(m), m)
    ensures page > PageCount(|m|, perPage) ==> Page(m, page, perPage) == []
    ensures 1 <= page <= PageCount(|m|, perPage) ==> Page(m, page, perPage) != []
  {
    EmptyPages(SortedRecords(m), perPage, page);
    SortedRecordsEnumerates(m);
    PagesConcat(SortedRecords(m), perPage);
  }

  // ----- the handler -----

  /** Sorting by id: stands for the library sort the handler calls. */
  function SortById(rs: seq<Record>): seq<Record> {
    if rs == [] then [] else InsertById(SortById(rs[..|rs| - 1]), rs[|rs| - 1])
  }

  function InsertById(rs: seq<Record>, r: Record): seq<Record> {
    if rs == [] || rs[|rs| - 1].id < r.id then rs + [r]
    else InsertById(rs[..|rs| - 1], r) + [rs[|rs| - 1]]
  }

  lemma {:induction false} InsertByIdSorts(rs: seq<Record>, r: Record)
    requires IncreasingIds(rs) && forall x :: x in rs ==> x.id != r.id
    ensures IncreasingIds(InsertById(rs, r))
    ensures forall x :: x in InsertById(rs, r) <==> x in rs || x == r
    ensures |InsertById(rs, r)| == |rs| + 1
  {
    if rs == [] || rs[|rs| - 1].id < r.id {
    } else {
      var last := rs[|rs| - 1];
      assert rs == rs[..|rs| - 1] + [last];
      InsertByIdSorts(rs[..|rs| - 1], r);
      var t := InsertById(rs[..|rs| - 1], r);
      assert forall x :: x in t ==> x.id < last.id;
      assert forall i :: 0 <= i < |t| ==> t[i] in t;
    }
  }

  lemma {:induction false} SortByIdSorts(rs: seq<Record>)
    requires DistinctIds(rs)
    ensures IncreasingIds(SortById(rs))
    ensures forall x :: x in SortById(rs) <==> x in rs
    ensures |SortById(rs)| == |rs|
  {
    if rs != [] {
      var init, last := rs[..|rs| - 1], rs[|rs| - 1];
      assert rs == init + [last];
      SortByIdSorts(init);
      InsertByIdSorts(SortById(init), last);
    }
  }

  lemma SortIsSortedRecords(all: seq<Record>, m: Store)
    requires Keyed(m) && Enumerates(all, m)
    ensures SortById(all) == SortedRecords(m) && |SortById(all)| == |all|
  {
    SortByIdSorts(all);
    SortedRecordsEnumerates(m);
    IncreasingIsUnique(SortById(all), SortedRecords(m));
  }

  datatype ListResponse =
    | Listed(total: nat, pages: nat, records: seq<Record>)
    | Panicked

  /** The loops that fill the response one record at a time. */
  method Collect(page: seq<Record>) returns (records: seq<Record>)
    ensures records == page
  {
    records := [];
    for k := 0 to |page|
      invariant records == page[..k]
    {
      records := records + [page[k]];
    }
  }

  /** The last index the page could reach is below 2^64, so nothing wraps. */
  ghost predicate Fits(page: nat, perPage: nat) {
    AtLeastOne(page) * AtLeastOne(perPage) < TWO64
  }

  /** The response in 64-bit arithmetic: a slice whose wrapped end precedes its start panics. */
  function Answer(sorted: seq<Record>, page: nat, perPage: nat): ListResponse {
    var total, pages := |sorted|, PageCount(|sorted|, perPage);
    var start := Start(page, perPage) % TWO64;
    var end := (start + AtLeastOne(perPage)) % TWO64;
    if total <= start then Listed(total, pages, [])
    else if end < start then Panicked
    else Listed(total, pages, sorted[start..Smaller(end, total)])
  }

  function RightAnswer(sorted: seq<Record>, page: nat, perPage: nat): ListResponse {
    Listed(|sorted|, PageCount(|sorted|, perPage), Slice(sorted, page, perPage))
  }

  /** Where `start` and `end` land when they wrap. */
  lemma Wrapped(start: nat, n: nat)
    requires 1 <= n < TWO64 && TWO64 <= start + n
    ensures start < TWO64 ==> start % TWO64 == start && (start + n) % TWO64 == start + n - TWO64
    ensures start % TWO64 != (start % TWO64 + n) % TWO64
  {
    var r := start % TWO64;
    assert r + n < TWO64 ==> (r + n) % TWO64 == r + n;
    assert r + n >= TWO64 ==> (r + n) % TWO64 == r + n - TWO64;
  }

  lemma FitsMeansNoWrap(page: nat, perPage: nat)
    ensures Fits(page, perPage) <==> Start(page, perPage) + AtLeastOne(perPage) < TWO64
  {
    MulStep(AtLeastOne(page), AtLeastOne(perPage));
  }

  lemma AnswerInRange(sorted: seq<Record>, page: nat, perPage: nat)
    requires Fits(page, perPage)
    ensures Answer(sorted, page, perPage) == RightAnswer(sorted, page, perPage)
  {
    hide Fits, PageCount, Start;
    FitsMeansNoWrap(page, perPage);
    var start, n := Start(page, perPage), AtLeastOne(perPage);
    assert start % TWO64 == start && (start + n) % TWO64 == start + n;
  }

  lemma AnswerWrapped(sorted: seq<Record>, page: nat, perPage: nat)
    requires !Fits(page, perPage) && |sorted| < TWO64 && perPage < TWO64
    ensures Answer(sorted, page, perPage) == RightAnswer(sorted, page, perPage)
            <==> |sorted| <= Start(page, perPage) % TWO64
  {
    hide Fits, PageCount, Start;
    FitsMeansNoWrap(page, perPage);
    var start, n := Start(page, perPage), AtLeastOne(perPage);
    Wrapped(start, n);
    assert start % TWO64 <= start;
  }

  /** The handler answers with the right page exactly when the page's end stays below 2^64, or wrapping leaves
      its start past the last record. */
  lemma AnswerIsRightIff(sorted: seq<Record>, page: nat, perPage: nat)
    requires |sorted| < TWO64 && perPage < TWO64
    ensures Answer(sorted, page, perPage) == RightAnswer(sorted, page, perPage)
            <==> Fits(page, perPage) || |sorted| <= Start(page, perPage) % TWO64
  {
    hide Answer, RightAnswer, Fits, Start;
    if Fits(page, perPage) {
      AnswerInRange(sorted, page, perPage);
    } else {
      AnswerWrapped(sorted, page, perPage);
    }
  }

  /** Cutting one page out of the sorted records, in 64-bit arithmetic. */
  method CutPage(sorted: seq<Record>, page: nat, perPage: nat) returns (resp: ListResponse)
    ensures resp == Answer(sorted, page, perPage)
  {
    var total, npages := |sorted|, PageCount(|sorted|, perPage);
    var start := Start(page, perPage) % TWO64;
    var end := (start + AtLeastOne(perPage)) % TWO64;
    if total <= start {
      return Listed(total, npages, []);
    }
    if end < start {
      return Panicked;
    }
    var records;
    if total <= end {
      records := Collect(sorted[start..]);
    } else {
      records := Collect(sorted[start..end]);
    }
    return Listed(total, npages, records);
  }

  /** The handler. `all` is the node's map in whatever order it was ranged over; both the number of records
      and the page size are 64-bit values. */
  method ListRecords(ghost m: Store, all: seq<Record>, page: nat, perPage: nat) returns (resp: ListResponse)
    requires Keyed(m) && Enumerates(all, m) && |m| < TWO64 && perPage < TWO64
    ensures resp == Answer(SortedRecords(m), page, perPage)
    ensures resp == Listed(|m|, PageCount(|m|, perPage), Page(m, page, perPage))
            <==> Fits(page, perPage) || |m| <= Start(page, perPage) % TWO64
  {
    SortIsSortedRecords(all, m);
    AnswerIsRightIff(SortedRecords(m), page, perPage);
    resp := CutPage(SortById(all), page, perPage);
  }

  /** Pages whose starts agree modulo 2^64 get one and the same response. */
  lemma SameStartSameAnswer(sorted: seq<Record>, page: nat, other: nat, perPage: nat)
    requires Start(page, perPage) % TWO64 == Start(other, perPage) % TWO64
    ensures Answer(sorted, page, perPage) == Answer(sorted, other, perPage)
  {
    hide Start, PageCount;
  }

  lemma PastTheEnd(rs: seq<Record>, page: nat, perPage: nat)
    requires |rs| <= Start(page, perPage)
    ensures Slice(rs, page, perPage) == []
  {
    hide Start;
  }

  /** What the handler answers when the start of the page wraps: a panic if the wrapped page would reach 2^64 with a
      record to start from, and otherwise the records from the wrapped start on, as many as a page holds. */
  lemma WrappedAnswer(sorted: seq<Record>, page: nat, perPage: nat)
    requires |sorted| < TWO64 && perPage < TWO64
    ensures var n, start := AtLeastOne(perPage), Start(page, perPage) % TWO64;
            var a := Answer(sorted, page, perPage);
      && (a.Panicked? <==> start < |sorted| && TWO64 <= start + n)
      && (a.Listed? ==>
            && a.total == |sorted| && a.pages == PageCount(|sorted|, perPage)
            && a.records == sorted[Smaller(start, |sorted|)..Smaller(start + n, |sorted|)])
  {
    hide Start, PageCount;
    var n, start := AtLeastOne(perPage), Start(page, perPage) % TWO64;
    assert start + n < TWO64 ==> (start + n) % TWO64 == start + n;
    assert TWO64 <= start + n ==> (start + n) % TWO64 == start + n - TWO64;
  }

  /** One of the wrong answers: page 2^63 + 1 of two records each is answered with the records of page 1,
      although nothing is on it. */
  lemma WrappedPageRepeats(m: Store)
    requires 0 < |m| < TWO64
    ensures Page(m, TWO64 / 2 + 1, 2) == [] != Page(m, 1, 2)
    ensures Answer(SortedRecords(m), TWO64 / 2 + 1, 2) == Listed(|m|, PageCount(|m|, 2), Page(m, 1, 2))
  {
    hide Answer, Slice, PageCount;
    var rs := SortedRecords(m);
    assert Start(TWO64 / 2 + 1, 2) == TWO64 && Start(1, 2) == 0;
    PastTheEnd(rs, TWO64 / 2 + 1, 2);
    SameStartSameAnswer(rs, TWO64 / 2 + 1, 1, 2);
    AnswerInRange(rs, 1, 2);
    FirstSlice(rs, 2);
  }
}
