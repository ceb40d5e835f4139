/** Replacing record lookups in an oracle's source by the records themselves (master/ast_raccoon.go). */
module Patcher {
  import opened Wrappers

  /** One replacement: the text from `lo` up to `hi` of the original source becomes `text`. */
  datatype Edit = Edit(lo: int, hi: int, text: string)

  function Growth(e: Edit): int {
    |e.text| - (e.hi - e.lo)
  }

  datatype Outcome = Patched(code: string) | Failed | Panicked

  /** One splice at the shifted position; a position outside the text panics. */
  function Splice(code: string, e: Edit, shift: int): Outcome {
    var lo, hi := e.lo + shift, e.hi + shift;
    if 0 <= lo <= |code| && 0 <= hi <= |code| then Patched(code[..lo] + e.text + code[hi..]) else Panicked
  }

  /** The only failure of a splice is a panic, exactly when one of its ends is outside the text. */
  lemma SplicePanicsIff(code: string, e: Edit, shift: int)
    ensures Splice(code, e, shift) == Panicked <==>
            e.lo + shift < 0 || |code| < e.lo + shift || e.hi + shift < 0 || |code| < e.hi + shift
    ensures Splice(code, e, shift) != Failed
  {
  }

  /** The splices one after the other, each shifted by what the earlier ones added. */
  function SpliceAll(code: string, shift: int, edits: seq<Edit>): Outcome
    decreases |edits|
  {
    if edits == [] then Patched(code)
    else
      var r := Splice(code, edits[0], shift);
      if r.Patched? then SpliceAll(r.code, shift + Growth(edits[0]), edits[1..]) else r
  }

  // ----- simultaneous substitution -----

  /** The spans lie in the source from position `from` on, disjoint and in increasing order. */
  ghost predicate Increasing(edits: seq<Edit>, from: int, end: int)
    decreases |edits|
  {
    if edits == [] then from <= end
    else from <= edits[0].lo <= edits[0].hi && Increasing(edits[1..], edits[0].hi, end)
  }

  lemma {:induction false} IncreasingFits(edits: seq<Edit>, from: int, end: int)
    requires Increasing(edits, from, end)
    ensures from <= end
    ensures edits != [] ==> edits[0].hi <= end
    decreases |edits|
  {
    if edits != [] {
      IncreasingFits(edits[1..], edits[0].hi, end);
    }
  }

  /** The source from `from` on, with every span replaced at once. */
  ghost function Substitute(src: string, from: nat, edits: seq<Edit>): string
    requires Increasing(edits, from, |src|)
    decreases |edits|
  {
    IncreasingFits(edits, from, |src|);
    if edits == [] then src[from..]
    else src[from..edits[0].lo] + edits[0].text + Substitute(src, edits[0].hi, edits[1..])
  }

  /** Total growth of the edits that end at or before p. */
  ghost function GrowthBefore(edits: seq<Edit>, p: int): int {
    if edits == [] then 0
    else (if edits[0].hi <= p then Growth(edits[0]) else 0) + GrowthBefore(edits[1..], p)
  }

  lemma {:induction false} NoGrowthBefore(edits: seq<Edit>, from: int, end: int, p: int)
    requires Increasing(edits, from, end) && p < from
    ensures GrowthBefore(edits, p) == 0
    decreases |edits|
  {
    if edits != [] {
      NoGrowthBefore(edits[1..], edits[0].hi, end, p);
    }
  }

  ghost predicate Outside(edits: seq<Edit>, p: int) {
    forall i :: 0 <= i < |edits| ==> p < edits[i].lo || edits[i].hi <= p
  }

  lemma InFront(a: string, b: string, c: string, k: nat)
    requires k < |a|
    ensures (a + b + c)[k] == a[k]
  {
  }

  lemma Behind(a: string, b: string, c: string, k: nat)
    requires k < |c|
    ensures (a + b + c)[|a| + |b| + k] == c[k]
  {
  }

  lemma OutsideRest(edits: seq<Edit>, p: int)
    requires Outside(edits, p) && edits != []
    ensures Outside(edits[1..], p)
  {
  }

  /** Text outside the spans is unchanged: it reappears, moved by the growth of the edits before it. */
  lemma {:induction false} OutsideUnchanged(src: string, from: nat, edits: seq<Edit>, p: nat)
    requires Increasing(edits, from, |src|) && from <= p < |src| && Outside(edits, p)
    ensures var k := p - from + GrowthBefore(edits, p);
            0 <= k < |Substitute(src, from, edits)| && Substitute(src, from, edits)[k] == src[p]
    decreases |edits|
  {
    IncreasingFits(edits, from, |src|);
    if edits != [] {
      var e, rest := edits[0], edits[1..];
      var gap, tail := src[from..e.lo], Substitute(src, e.hi, rest);
      assert Substitute(src, from, edits) == gap + e.text + tail;
      if p < e.lo {
        assert GrowthBefore(edits, p) == 0 by {
          NoGrowthBefore(rest, e.hi, |src|, p);
        }
        InFront(gap, e.text, tail, p - from);
      } else {
        OutsideRest(edits, p);
        OutsideUnchanged(src, e.hi, rest, p);
        var k := p - e.hi + GrowthBefore(rest, p);
        assert p - from + GrowthBefore(edits, p) == |gap| + |e.text| + k;
        Behind(gap, e.text, tail, k);
      }
    }
  }

  // String algebra.

  lemma Assoc(a: string, b: string, c: string, d: string)
    ensures (a + b) + c + d == a + (b + c + d)
  {
  }

  lemma SliceSplit(s: string, a: nat, b: nat, c: nat)
    requires a <= b <= c <= |s|
    ensures s[a..c] == s[a..b] + s[b..c]
  {
  }

  lemma SpliceAt(a: string, b: string, c: string, t: string)
    ensures (a + b + c)[..|a|] + t + (a + b + c)[|a| + |b|..] == a + t + c
  {
  }

  /** One splice of the running text: its span is cut out of the untouched rest. */
  lemma {:induction false} SpliceRest(src: string, done: string, from: nat, e: Edit)
    requires from <= e.lo <= e.hi <= |src|
    ensures Splice(done + src[from..], e, |done| - from) == Patched(done + src[from..e.lo] + e.text + src[e.hi..])
  {
  }

  /** Splicing with the running shift, when `done` replaces the source up to `from`. */
  lemma {:induction false} SpliceIsSubstitution(src: string, done: string, from: nat, edits: seq<Edit>)
    requires Increasing(edits, from, |src|)
    ensures from <= |src|
    ensures SpliceAll(done + src[from..], |done| - from, edits) == Patched(done + Substitute(src, from, edits))
    decreases |edits|
  {
    IncreasingFits(edits, from, |src|);
    if edits != [] {
      hide Splice;
      var e := edits[0];
      var done' := done + src[from..e.lo] + e.text;
      SpliceRest(src, done, from, e);
      SpliceIsSubstitution(src, done', e.hi, edits[1..]);
      Assoc(done, src[from..e.lo], e.text, Substitute(src, e.hi, edits[1..]));
    }
  }

  /** For disjoint spans in increasing order the running shift computes the simultaneous substitution, and every
      slice is in bounds. */
  lemma {:induction false} RunningShiftIsSubstitution(src: string, edits: seq<Edit>)
    requires Increasing(edits, 0, |src|)
    ensures SpliceAll(src, 0, edits) == Patched(Substitute(src, 0, edits))
  {
    SpliceIsSubstitution(src, "", 0, edits);
    assert "" + src[0..] == src && "" + Substitute(src, 0, edits) == Substitute(src, 0, edits);
  }

  // ----- any visiting order -----

  /** Filing an edit into a list ordered by position. */
  function File(sorted: seq<Edit>, e: Edit): seq<Edit> {
    if sorted == [] || e.hi <= sorted[0].lo then [e] + sorted else [sorted[0]] + File(sorted[1..], e)
  }

  ghost predicate Apart(sorted: seq<Edit>, e: Edit) {
    forall i :: 0 <= i < |sorted| ==> e.hi <= sorted[i].lo || sorted[i].hi <= e.lo
  }

  /** The growth of the edits to the right of e: the shift the code applies to e by mistake. */
  ghost function GrowthAfter(sorted: seq<Edit>, e: Edit): int {
    if sorted == [] then 0
    else (if e.hi <= sorted[0].lo then Growth(sorted[0]) else 0) + GrowthAfter(sorted[1..], e)
  }

  ghost function TotalGrowth(edits: seq<Edit>): int {
    if edits == [] then 0 else Growth(edits[0]) + TotalGrowth(edits[1..])
  }

  lemma {:induction false} FileIncreasing(sorted: seq<Edit>, e: Edit, from: int, end: int)
    requires Increasing(sorted, from, end) && Apart(sorted, e) && from <= e.lo < e.hi <= end
    ensures Increasing(File(sorted, e), from, end)
    ensures TotalGrowth(File(sorted, e)) == TotalGrowth(sorted) + Growth(e)
    decreases |sorted|
  {
    if sorted == [] || e.hi <= sorted[0].lo {
      assert ([e] + sorted)[1..] == sorted;
    } else {
      var rest := sorted[1..];
      ApartRest(sorted, e);
      FileIncreasing(rest, e, sorted[0].hi, end);
      assert ([sorted[0]] + File(rest, e))[1..] == File(rest, e);
    }
  }

  /** Everything is to the right of an edit that precedes the first span. */
  lemma {:induction false} AllAfter(sorted: seq<Edit>, e: Edit, from: int, end: int)
    requires Increasing(sorted, from, end) && e.hi <= from
    ensures GrowthAfter(sorted, e) == TotalGrowth(sorted)
    decreases |sorted|
  {
    if sorted != [] {
      AllAfter(sorted[1..], e, sorted[0].hi, end);
    }
  }

  lemma {:induction false} SubstituteFrom(src: string, from: nat, mid: nat, edits: seq<Edit>)
    requires from <= mid && Increasing(edits, mid, |src|)
    ensures Increasing(edits, from, |src|) && mid <= |src|
    ensures Substitute(src, from, edits) == src[from..mid] + Substitute(src, mid, edits)
  {
    IncreasingFits(edits, mid, |src|);
    if edits != [] {
      SliceSplit(src, from, mid, edits[0].lo);
      Assoc(src[from..mid], src[mid..edits[0].lo], edits[0].text, Substitute(src, edits[0].hi, edits[1..]));
    }
  }

  lemma ApartRest(sorted: seq<Edit>, e: Edit)
    requires Apart(sorted, e) && sorted != []
    ensures Apart(sorted[1..], e)
  {
  }

  /** e comes before every span: it is cut out of the untouched head of the text. */
  lemma {:induction false} SpliceFirst(src: string, from: nat, sorted: seq<Edit>, e: Edit)
    requires Increasing(sorted, from, |src|) && from <= e.lo < e.hi <= |src|
    requires sorted == [] || e.hi <= sorted[0].lo
    ensures Increasing([e] + sorted, from, |src|)
    ensures TotalGrowth(sorted) == GrowthAfter(sorted, e)
    ensures Splice(Substitute(src, from, sorted), e, 0 - from) == Patched(Substitute(src, from, [e] + sorted))
  {
    assert ([e] + sorted)[1..] == sorted;
    if sorted != [] {
      AllAfter(sorted[1..], e, sorted[0].hi, |src|);
    }
    SubstituteFrom(src, from, e.hi, sorted);
    var tail := Substitute(src, e.hi, sorted);
    SliceSplit(src, from, e.lo, e.hi);
    SpliceAt(src[from..e.lo], src[e.lo..e.hi], tail, e.text);
  }

  /** Splicing e at its true place in a text where `sorted` has been substituted substitutes e too. */
  lemma {:induction false} SpliceInto(src: string, from: nat, sorted: seq<Edit>, e: Edit)
    requires Increasing(sorted, from, |src|) && Apart(sorted, e) && from <= e.lo < e.hi <= |src|
    ensures Increasing(File(sorted, e), from, |src|)
    ensures var shift := TotalGrowth(sorted) - GrowthAfter(sorted, e) - from;
            Splice(Substitute(src, from, sorted), e, shift) == Patched(Substitute(src, from, File(sorted, e)))
    decreases |sorted|
  {
    hide Splice;
    FileIncreasing(sorted, e, from, |src|);
    IncreasingFits(sorted, from, |src|);
    if sorted == [] || e.hi <= sorted[0].lo {
      SpliceFirst(src, from, sorted, e);
    } else {
      var first, rest := sorted[0], sorted[1..];
      ApartRest(sorted, e);
      SpliceInto(src, first.hi, rest, e);
      var head := src[from..first.lo] + first.text;
      var shift' := TotalGrowth(rest) - GrowthAfter(rest, e) - first.hi;
      SpliceTail(head, Substitute(src, first.hi, rest), e, shift');
      assert ([first] + File(rest, e))[1..] == File(rest, e);
    }
  }

  lemma SpliceTail(head: string, tail: string, e: Edit, shift: int)
    requires Splice(tail, e, shift).Patched?
    ensures Splice(head + tail, e, shift + |head|) == Patched(head + Splice(tail, e, shift).code)
  {
  }

  /** Each edit, when its turn comes, is apart from those before it, and those to its right have grown by nothing. */
  ghost predicate OnTarget(sorted: seq<Edit>, edits: seq<Edit>, end: int)
    decreases |edits|
  {
    edits == [] ||
    (&& 0 <= edits[0].lo < edits[0].hi <= end
     && Apart(sorted, edits[0])
     && GrowthAfter(sorted, edits[0]) == 0
     && OnTarget(File(sorted, edits[0]), edits[1..], end))
  }

  ghost function FileAll(sorted: seq<Edit>, edits: seq<Edit>): seq<Edit>
    decreases |edits|
  {
    if edits == [] then sorted else FileAll(File(sorted, edits[0]), edits[1..])
  }

  /** One splice with the running shift, when what is to its right has grown by nothing. */
  lemma {:induction false} SpliceOnTarget(src: string, sorted: seq<Edit>, e: Edit)
    requires Increasing(sorted, 0, |src|) && Apart(sorted, e) && 0 <= e.lo < e.hi <= |src|
    requires GrowthAfter(sorted, e) == 0
    ensures Increasing(File(sorted, e), 0, |src|) && TotalGrowth(File(sorted, e)) == TotalGrowth(sorted) + Growth(e)
    ensures Splice(Substitute(src, 0, sorted), e, TotalGrowth(sorted)) ==
            Patched(Substitute(src, 0, File(sorted, e)))
  {
    hide Splice, Substitute, File, Increasing, TotalGrowth, GrowthAfter;
    SpliceInto(src, 0, sorted, e);
    FileIncreasing(sorted, e, 0, |src|);
  }

  lemma {:induction false} SpliceInAnyOrder(src: string, sorted: seq<Edit>, edits: seq<Edit>)
    requires Increasing(sorted, 0, |src|) && OnTarget(sorted, edits, |src|)
    ensures Increasing(FileAll(sorted, edits), 0, |src|)
    ensures SpliceAll(Substitute(src, 0, sorted), TotalGrowth(sorted), edits) ==
            Patched(Substitute(src, 0, FileAll(sorted, edits)))
    decreases |edits|
  {
    hide Splice, Substitute, File, Increasing, TotalGrowth, GrowthAfter, Apart;
    if edits != [] {
      SpliceOnTarget(src, sorted, edits[0]);
      SpliceInAnyOrder(src, File(sorted, edits[0]), edits[1..]);
    }
  }

  /** Disjoint non-empty spans visited in any order: the code computes the substitution of them all, as long as
      at each splice the replacements already made further right have not changed the length. */
  lemma {:induction false} AnyOrderIsSubstitution(src: string, edits: seq<Edit>)
    requires OnTarget([], edits, |src|)
    ensures Increasing(FileAll([], edits), 0, |src|)
    ensures SpliceAll(src, 0, edits) == Patched(Substitute(src, 0, FileAll([], edits)))
  {
    SpliceInAnyOrder(src, [], edits);
    assert src[0..] == src;
  }

  // ----- exactly when any order is right -----

  /** Non-empty spans of the source, each apart from those visited before it, and replaced by something. */
  ghost predicate Scattered(sorted: seq<Edit>, edits: seq<Edit>, end: int)
    decreases |edits|
  {
    edits == [] ||
    (&& 0 <= edits[0].lo < edits[0].hi <= end && edits[0].text != ""
     && Apart(sorted, edits[0])
     && Scattered(File(sorted, edits[0]), edits[1..], end))
  }

  /** Every splice, with its running shift, turns the substitution of the edits before it into the substitution of
      these and its own. */
  ghost predicate EverySpliceRight(src: string, sorted: seq<Edit>, edits: seq<Edit>)
    decreases |edits|
  {
    edits == [] ||
    (&& Increasing(sorted, 0, |src|) && Increasing(File(sorted, edits[0]), 0, |src|)
     && Splice(Substitute(src, 0, sorted), edits[0], TotalGrowth(sorted)) ==
        Patched(Substitute(src, 0, File(sorted, edits[0])))
     && EverySpliceRight(src, File(sorted, edits[0]), edits[1..]))
  }

  lemma {:induction false} GrowthSplit(sorted: seq<Edit>, e: Edit, from: int, end: int, p: int)
    requires Increasing(sorted, from, end) && Apart(sorted, e) && e.lo <= p < e.hi
    ensures GrowthBefore(sorted, p) + GrowthAfter(sorted, e) == TotalGrowth(sorted)
    ensures Outside(sorted, p)
    decreases |sorted|
  {
    if sorted != [] {
      ApartRest(sorted, e);
      GrowthSplit(sorted[1..], e, sorted[0].hi, end, p);
      assert forall i :: 0 < i < |sorted| ==> sorted[i] == sorted[1..][i - 1];
    }
  }

  /** Where a span of the source ends up. */
  lemma {:induction false} ImageOfSpan(src: string, sorted: seq<Edit>, e: Edit, p: nat)
    requires Increasing(sorted, 0, |src|) && Apart(sorted, e) && 0 <= e.lo <= p < e.hi <= |src|
    ensures var k := p + TotalGrowth(sorted) - GrowthAfter(sorted, e);
            0 <= k < |Substitute(src, 0, sorted)| && Substitute(src, 0, sorted)[k] == src[p]
  {
    hide Substitute, GrowthBefore, GrowthAfter, TotalGrowth, Increasing;
    GrowthSplit(sorted, e, 0, |src|, p);
    OutsideUnchanged(src, 0, sorted, p);
  }

  /** Two splices of the same text at different places give different results, if the text cut at the one place
      neither starts nor ends like the text put in. */
  lemma SplicesDiffer(code: string, e: Edit, p: int, q: int)
    requires e.lo < e.hi && e.text != "" && p != q
    requires Splice(code, e, p).Patched? && e.lo + p < e.hi + p <= |code|
    requires code[e.lo + p] != e.text[0] && code[e.hi + p - 1] != e.text[|e.text| - 1]
    ensures Splice(code, e, q) != Splice(code, e, p)
  {
    var a, b := e.lo + p, e.lo + q;
    var n, k := e.hi - e.lo, |e.text|;
    if Splice(code, e, q).Patched? {
      var x, y := Splice(code, e, p).code, Splice(code, e, q).code;
      if a < b {
        assert x[a] == e.text[0] && y[a] == code[a];
      } else {
        assert x[a + k - 1] == e.text[k - 1];
        assert y[a + k - 1] == code[b + n..][a - 1 - b] == code[a + n - 1];
      }
    }
  }

  function OtherThan(a: char, b: char): (c: char)
    ensures c != a && c != b
  {
    if a != 'x' && b != 'x' then 'x' else if a != 'y' && b != 'y' then 'y' else 'z'
  }

  /** A source on which the splice goes wrong if it is off target. */
  lemma {:induction false} OffTargetGoesWrong(sorted: seq<Edit>, e: Edit, end: nat) returns (src: string)
    requires Increasing(sorted, 0, end) && Apart(sorted, e) && 0 <= e.lo < e.hi <= end && e.text != ""
    ensures |src| == end && Increasing(File(sorted, e), 0, end)
    ensures GrowthAfter(sorted, e) != 0 ==>
              Splice(Substitute(src, 0, sorted), e, TotalGrowth(sorted)) !=
              Patched(Substitute(src, 0, File(sorted, e)))
  {
    hide Substitute, GrowthAfter, TotalGrowth, Increasing, File, Splice;
    var c := OtherThan(e.text[0], e.text[|e.text| - 1]);
    src := seq(end, i => c);
    SpliceInto(src, 0, sorted, e);
    ImageOfSpan(src, sorted, e, e.lo);
    ImageOfSpan(src, sorted, e, e.hi - 1);
    if GrowthAfter(sorted, e) != 0 {
      SplicesDiffer(Substitute(src, 0, sorted), e, TotalGrowth(sorted) - GrowthAfter(sorted, e), TotalGrowth(sorted));
    }
  }

  lemma {:induction false} OnTargetIsRight(src: string, sorted: seq<Edit>, edits: seq<Edit>)
    requires Increasing(sorted, 0, |src|) && OnTarget(sorted, edits, |src|)
    ensures EverySpliceRight(src, sorted, edits)
    decreases |edits|
  {
    hide Splice, Substitute, File, Increasing, TotalGrowth, GrowthAfter, Apart;
    if edits != [] {
      SpliceOnTarget(src, sorted, edits[0]);
      OnTargetIsRight(src, File(sorted, edits[0]), edits[1..]);
    }
  }

  lemma {:induction false} RightIsOnTarget(sorted: seq<Edit>, edits: seq<Edit>, end: nat)
    requires Increasing(sorted, 0, end) && Scattered(sorted, edits, end)
    requires forall src: string :: |src| == end ==> EverySpliceRight(src, sorted, edits)
    ensures OnTarget(sorted, edits, end)
    decreases |edits|
  {
    hide Splice, Substitute, File, Increasing, TotalGrowth, GrowthAfter, Apart;
    if edits != [] {
      var e := edits[0];
      var wrong := OffTargetGoesWrong(sorted, e, end);
      assert EverySpliceRight(wrong, sorted, edits);
      FileIncreasing(sorted, e, 0, end);
      forall src: string | |src| == end
        ensures EverySpliceRight(src, File(sorted, e), edits[1..])
      {
        assert EverySpliceRight(src, sorted, edits);
      }
      RightIsOnTarget(File(sorted, e), edits[1..], end);
    }
  }

  /** For spans visited in any order, and whatever the source: every splice is right on every source of that length
      exactly when at each one the replacements already made further right have not changed the length. */
  lemma {:induction false} RightOrderIff(edits: seq<Edit>, end: nat)
    requires Scattered([], edits, end)
    ensures OnTarget([], edits, end) <==> forall src: string :: |src| == end ==> EverySpliceRight(src, [], edits)
  {
    hide OnTarget, EverySpliceRight, Scattered;
    if OnTarget([], edits, end) {
      forall src: string | |src| == end
        ensures EverySpliceRight(src, [], edits)
      {
        OnTargetIsRight(src, [], edits);
      }
    }
    if forall src: string :: |src| == end ==> EverySpliceRight(src, [], edits) {
      RightIsOnTarget([], edits, end);
    }
  }

  // ----- collecting the lookups -----

  /** A syntax node: its positions in the source (counted from 1, as the parser does), and what the visitor asks
      of it. `callee` is the source text of a call's callee. */
  datatype Tree = Tree(kind: Kind, idx0: nat, idx1: nat, children: seq<Tree>)

  datatype Kind =
    | Call(callee: string, args: nat, argument: Option<string>)  // the single argument, if it is an identifier
    | Other

  datatype CallNode = CallNode(idx0: nat, idx1: nat, arg: string)

  function StripSpaces(s: string): string {
    if s == "" then ""
    else if s[0] in {' ', '\t', '\n', '\r'} then StripSpaces(s[1..])
    else [s[0]] + StripSpaces(s[1..])
  }

  /** A call records.Find(p) of a parameter p. */
  predicate IsLookup(params: seq<string>, t: Tree) {
    && t.kind.Call? && t.kind.args == 1
    && StripSpaces(t.kind.callee) == "records.Find"
    && t.kind.argument.Some? && t.kind.argument.value in params
  }

  function FirstIndex(params: seq<string>, name: string): (i: nat)
    requires name in params
    ensures i < |params| && params[i] == name && name !in params[..i]
  {
    if params[0] == name then 0
    else
      var i := FirstIndex(params[1..], name);
      assert forall j :: 0 < j < i + 1 ==> params[j] == params[1..][..i][j - 1];
      i + 1
  }

  /** The parameters that some lookup mentions, each name at its first occurrence. */
  ghost predicate Marked(marks: set<nat>, params: seq<string>, ns: seq<CallNode>) {
    forall i :: i in marks <==> 0 <= i < |params| && params[i] !in params[..i] && Used(ns, params[i])
  }

  predicate Used(ns: seq<CallNode>, name: string) {
    exists i :: 0 <= i < |ns| && ns[i].arg == name
  }

  lemma InPrefix(params: seq<string>, i: nat, j: nat)
    ensures i < j <= |params| ==> params[i] in params[..j]
  {
    if i < j <= |params| {
      assert params[..j][i] == params[i];
    }
  }

  lemma MarkOneMore(marks: set<nat>, params: seq<string>, ns: seq<CallNode>, n: CallNode)
    requires Marked(marks, params, ns) && n.arg in params
    ensures Marked(marks + {FirstIndex(params, n.arg)}, params, ns + [n])
  {
    var k := FirstIndex(params, n.arg);
    forall i | 0 <= i < |params|
      ensures i in marks + {k} <==> params[i] !in params[..i] && Used(ns + [n], params[i])
    {
      assert (ns + [n])[|ns|] == n;
      assert Used(ns, params[i]) ==> Used(ns + [n], params[i]) by {
        if j :| 0 <= j < |ns| && ns[j].arg == params[i] {
          assert (ns + [n])[j].arg == params[i];
        }
      }
      assert Used(ns + [n], params[i]) ==> Used(ns, params[i]) || params[i] == n.arg;
      InPrefix(params, i, k);
      InPrefix(params, k, i);
    }
  }

  /** The lookups found by a walk that does not enter a lookup, in the order of the walk. */
  function Lookups(params: seq<string>, t: Tree): seq<CallNode> {
    if params == [] then []
    else if IsLookup(params, t) then [CallNode(t.idx0, t.idx1, t.kind.argument.value)]
    else LookupsIn(params, t.children)
  }

  function LookupsIn(params: seq<string>, ts: seq<Tree>): seq<CallNode> {
    if ts == [] then [] else Lookups(params, ts[0]) + LookupsIn(params, ts[1..])
  }

  /** n is the call `x`, of records.Find up to white space, with a parameter as its one argument. */
  ghost predicate IsFindCall(params: seq<string>, x: Tree, n: CallNode) {
    && x.kind.Call? && x.kind.args == 1 && x.kind.argument == Some(n.arg) && n.arg in params
    && StripSpaces(x.kind.callee) == "records.Find"
    && x.idx0 == n.idx0 && x.idx1 == n.idx1
  }

  /** x is t or lies below it, and no call around it, up to t, is a lookup itself. */
  ghost predicate Uncovered(params: seq<string>, t: Tree, x: Tree) {
    || x == t
    || ((forall n :: !IsFindCall(params, t, n)) && UncoveredIn(params, t.children, x))
  }

  ghost predicate UncoveredIn(params: seq<string>, ts: seq<Tree>, x: Tree) {
    ts != [] && (Uncovered(params, ts[0], x) || UncoveredIn(params, ts[1..], x))
  }

  lemma IsLookupIff(params: seq<string>, t: Tree)
    ensures IsLookup(params, t) <==> exists n :: IsFindCall(params, t, n)
    ensures IsLookup(params, t) ==> forall n :: IsFindCall(params, t, n) ==>
              n == CallNode(t.idx0, t.idx1, t.kind.argument.value)
  {
    hide StripSpaces;
    if IsLookup(params, t) {
      assert IsFindCall(params, t, CallNode(t.idx0, t.idx1, t.kind.argument.value));
    }
  }

  ghost predicate Collectable(params: seq<string>, t: Tree, n: CallNode) {
    exists x :: Uncovered(params, t, x) && IsFindCall(params, x, n)
  }

  ghost predicate CollectableIn(params: seq<string>, ts: seq<Tree>, n: CallNode) {
    exists x :: UncoveredIn(params, ts, x) && IsFindCall(params, x, n)
  }

  /** The walk collects exactly the lookups of parameters that are not inside another one. */
  lemma {:induction false} LookupsAre(params: seq<string>, t: Tree, n: CallNode)
    ensures n in Lookups(params, t) <==> Collectable(params, t, n)
  {
    hide IsFindCall, IsLookup;
    IsLookupIff(params, t);
    LookupsInAre(params, t.children, n);
    if params == [] {
      NoFindCalls(params);
    } else if IsLookup(params, t) {
      assert IsFindCall(params, t, CallNode(t.idx0, t.idx1, t.kind.argument.value)) && Uncovered(params, t, t) by {
        LookupIsFindCall(params, t);
      }
      if Collectable(params, t, n) {
        var x :| Uncovered(params, t, x) && IsFindCall(params, x, n);
        assert x == t;
      }
    } else {
      if x :| Uncovered(params, t, x) && IsFindCall(params, x, n) {
        assert UncoveredIn(params, t.children, x);
      }
      if x :| UncoveredIn(params, t.children, x) && IsFindCall(params, x, n) {
        assert Uncovered(params, t, x);
      }
    }
  }

  lemma LookupIsFindCall(params: seq<string>, t: Tree)
    requires IsLookup(params, t)
    ensures IsFindCall(params, t, CallNode(t.idx0, t.idx1, t.kind.argument.value))
  {
  }

  lemma NoFindCalls(params: seq<string>)
    requires params == []
    ensures forall x, n :: !IsFindCall(params, x, n)
  {
  }

  lemma {:induction false} LookupsInAre(params: seq<string>, ts: seq<Tree>, n: CallNode)
    ensures n in LookupsIn(params, ts) <==> CollectableIn(params, ts, n)
  {
    hide IsFindCall, Uncovered, IsLookup, Lookups;
    if ts != [] {
      LookupsAre(params, ts[0], n);
      LookupsInAre(params, ts[1..], n);
      if x :| UncoveredIn(params, ts, x) && IsFindCall(params, x, n) {
        assert Uncovered(params, ts[0], x) || UncoveredIn(params, ts[1..], x);
      }
      if x :| Uncovered(params, ts[0], x) && IsFindCall(params, x, n) {
        assert UncoveredIn(params, ts, x);
      }
      if x :| UncoveredIn(params, ts[1..], x) && IsFindCall(params, x, n) {
        assert UncoveredIn(params, ts, x);
      }
    }
  }

  /** Children lie inside their parent, disjoint and in source order. */
  ghost predicate WellNested(t: Tree) {
    1 <= t.idx0 < t.idx1 && NestedIn(t.children, t.idx0, t.idx1)
  }

  ghost predicate NestedIn(ts: seq<Tree>, from: nat, end: nat) {
    if ts == [] then from <= end
    else from <= ts[0].idx0 && WellNested(ts[0]) && NestedIn(ts[1..], ts[0].idx1, end)
  }

  ghost predicate InOrder(ns: seq<CallNode>, from: nat, end: nat)
    decreases |ns|
  {
    if ns == [] then from <= end
    else from <= ns[0].idx0 < ns[0].idx1 && InOrder(ns[1..], ns[0].idx1, end)
  }

  lemma {:induction false} InOrderFits(ns: seq<CallNode>, from: nat, end: nat)
    requires InOrder(ns, from, end)
    ensures from <= end
    decreases |ns|
  {
    if ns != [] {
      InOrderFits(ns[1..], ns[0].idx1, end);
    }
  }

  lemma {:induction false} InOrderWiden(ns: seq<CallNode>, from: nat, end: nat, from': nat, end': nat)
    requires InOrder(ns, from, end) && from' <= from && end <= end'
    ensures InOrder(ns, from', end')
    decreases |ns|
  {
    if ns != [] {
      InOrderWiden(ns[1..], ns[0].idx1, end, ns[0].idx1, end');
    }
  }

  lemma {:induction false} InOrderJoin(a: seq<CallNode>, b: seq<CallNode>, from: nat, mid: nat, end: nat)
    requires InOrder(a, from, mid) && InOrder(b, mid, end)
    ensures InOrder(a + b, from, end)
    decreases |a|
  {
    if a == [] {
      assert a + b == b;
      InOrderWiden(b, mid, end, from, end);
    } else {
      InOrderJoin(a[1..], b, a[0].idx1, mid, end);
      assert (a + b)[1..] == a[1..] + b;
    }
  }

  /** The walk collects disjoint lookups in source order: it never enters one it has collected. */
  lemma {:induction false} LookupsInOrder(params: seq<string>, t: Tree)
    requires WellNested(t)
    ensures InOrder(Lookups(params, t), t.idx0, t.idx1)
  {
    if params != [] && !IsLookup(params, t) {
      LookupsInAreInOrder(params, t.children, t.idx0, t.idx1);
    }
  }

  lemma {:induction false} LookupsInAreInOrder(params: seq<string>, ts: seq<Tree>, from: nat, end: nat)
    requires NestedIn(ts, from, end)
    ensures InOrder(LookupsIn(params, ts), from, end)
  {
    if ts != [] {
      LookupsInOrder(params, ts[0]);
      LookupsInAreInOrder(params, ts[1..], ts[0].idx1, end);
      InOrderWiden(Lookups(params, ts[0]), ts[0].idx0, ts[0].idx1, from, ts[0].idx1);
      InOrderJoin(Lookups(params, ts[0]), LookupsIn(params, ts[1..]), from, ts[0].idx1, end);
    }
  }

  // ----- patching -----

  /** What a parameter was resolved to: nothing, a record that does not exist, or a record and its JSON text (none
      if marshalling it fails). */
  datatype Resolution = Unresolved | Missing | Resolved(json: Option<string>)

  function Serialised(r: Resolution): Option<string> {
    match r
    case Unresolved => Some("")
    case Missing => Some("null")
    case Resolved(json) => json
  }

  function NewRecord(json: string): string {
    "records.New(" + json + ")"
  }

  function EditOf(n: CallNode, json: string): Edit {
    Edit(n.idx0 - 1, n.idx1 - 1, NewRecord(json))
  }

  /** The replacements of one parameter's lookups among the nodes, in order. */
  function EditsFor(ns: seq<CallNode>, name: string, json: string): seq<Edit> {
    if ns == [] then []
    else EditsFor(ns[..|ns| - 1], name, json) +
         (if ns[|ns| - 1].arg == name then [EditOf(ns[|ns| - 1], json)] else [])
  }

  /** All replacements, parameter by parameter; none if some needed record cannot be serialised. */
  function Edits(params: seq<string>, ns: seq<CallNode>, rs: seq<Resolution>): Option<seq<Edit>>
    requires |params| <= |rs|
  {
    if params == [] then Some([])
    else
      var k := |params| - 1;
      var before := Edits(params[..k], ns, rs);
      if before.None? || rs[k].Unresolved? || !Used(ns, params[k]) then before
      else
        match Serialised(rs[k])
        case None => None
        case Some(json) => Some(before.value + EditsFor(ns, params[k], json))
  }

  lemma {:induction false} SpliceAllConcat(code: string, shift: int, a: seq<Edit>, b: seq<Edit>)
    ensures SpliceAll(code, shift, a + b) ==
            var r := SpliceAll(code, shift, a);
            if r.Patched? then SpliceAll(r.code, shift + TotalGrowth(a), b) else r
    decreases |a|
  {
    if a == [] {
      assert a + b == b;
    } else {
      assert (a + b)[1..] == a[1..] + b;
      var r := Splice(code, a[0], shift);
      if r.Patched? {
        SpliceAllConcat(r.code, shift + Growth(a[0]), a[1..], b);
      }
    }
  }

  // ----- one looked-up parameter -----

  lemma {:induction false} InOrderPrefix(ns: seq<CallNode>, from: nat, end: nat)
    requires InOrder(ns, from, end) && ns != []
    ensures from <= ns[|ns| - 1].idx0 < ns[|ns| - 1].idx1 <= end
    ensures InOrder(ns[..|ns| - 1], from, ns[|ns| - 1].idx0)
    decreases |ns|
  {
    InOrderFits(ns[1..], ns[0].idx1, end);
    if |ns| > 1 {
      InOrderPrefix(ns[1..], ns[0].idx1, end);
      assert ns[1..][..|ns[1..]| - 1] == ns[..|ns| - 1][1..];
    }
  }

  lemma {:induction false} IncreasingAppend(es: seq<Edit>, from: int, mid: int, e: Edit, end: int)
    requires Increasing(es, from, mid) && mid <= e.lo <= e.hi <= end
    ensures Increasing(es + [e], from, end)
    decreases |es|
  {
    if es == [] {
      assert (es + [e])[1..] == [];
    } else {
      IncreasingAppend(es[1..], es[0].hi, mid, e, end);
      assert (es + [e])[1..] == es[1..] + [e];
    }
  }

  lemma {:induction false} IncreasingWiden(es: seq<Edit>, from: int, end: int, end': int)
    requires Increasing(es, from, end) && end <= end'
    ensures Increasing(es, from, end')
    decreases |es|
  {
    if es != [] {
      IncreasingWiden(es[1..], es[0].hi, end, end');
    }
  }

  lemma {:induction false} EditsForIncrease(ns: seq<CallNode>, name: string, json: string, from: nat, end: nat)
    requires InOrder(ns, from, end)
    ensures Increasing(EditsFor(ns, name, json), from - 1, end - 1)
  {
    InOrderFits(ns, from, end);
    if ns != [] {
      var init, last := ns[..|ns| - 1], ns[|ns| - 1];
      InOrderPrefix(ns, from, end);
      EditsForIncrease(init, name, json, from, last.idx0);
      assert EditsFor(init, name, json) + [] == EditsFor(init, name, json);
      if last.arg == name {
        IncreasingAppend(EditsFor(init, name, json), from - 1, last.idx0 - 1, EditOf(last, json), end - 1);
      } else {
        IncreasingWiden(EditsFor(init, name, json), from - 1, last.idx0 - 1, end - 1);
      }
    }
  }

  /** Only parameter p is resolved. */
  ghost predicate OnlyResolved(rs: seq<Resolution>, p: nat) {
    forall i :: 0 <= i < |rs| && i != p ==> rs[i].Unresolved?
  }

  lemma {:induction false} OneParameterEdits(params: seq<string>, ns: seq<CallNode>, rs: seq<Resolution>, p: nat)
    requires |params| <= |rs| && p < |rs| && OnlyResolved(rs, p)
    ensures Edits(params, ns, rs) ==
            if p >= |params| || rs[p].Unresolved? || !Used(ns, params[p]) then Some([])
            else match Serialised(rs[p])
                 case None => None
                 case Some(json) => Some(EditsFor(ns, params[p], json))
  {
    if params != [] {
      OneParameterEdits(params[..|params| - 1], ns, rs, p);
      if p == |params| - 1 && Serialised(rs[p]).Some? {
        var es := EditsFor(ns, params[p], Serialised(rs[p]).value);
        assert [] + es == es;
      }
    }
  }

  /** With one looked-up parameter, on any source whose syntax tree is well nested, patching replaces all its
      lookups at once. */
  lemma {:induction false} OneParameterPatch(src: string, params: seq<string>, t: Tree, rs: seq<Resolution>, p: nat)
    requires WellNested(t) && t.idx1 - 1 <= |src|
    requires |params| <= |rs| && p < |rs| && OnlyResolved(rs, p)
    ensures var edits := Edits(params, Lookups(params, t), rs);
            edits.Some? ==>
      && Increasing(edits.value, 0, |src|)
      && SpliceAll(src, 0, edits.value) == Patched(Substitute(src, 0, edits.value))
  {
    var ns := Lookups(params, t);
    OneParameterEdits(params, ns, rs, p);
    LookupsInOrder(params, t);
    InOrderWiden(ns, t.idx0, t.idx1, 1, |src| + 1);
    var edits := Edits(params, ns, rs);
    if edits.Some? {
      if edits.value != [] {
        EditsForIncrease(ns, params[p], Serialised(rs[p]).value, 1, |src| + 1);
      }
      RunningShiftIsSubstitution(src, edits.value);
    }
  }

  lemma FirstIs(params: seq<string>, name: string, i: nat)
    requires i < |params| && params[i] == name && name !in params[..i]
    ensures FirstIndex(params, name) == i
  {
    var k := FirstIndex(params, name);
    InPrefix(params, i, k);
    InPrefix(params, k, i);
  }

  // ----- several parameters -----

  ghost predicate Distinct(params: seq<string>) {
    forall i, j :: 0 <= i < j < |params| ==> params[i] != params[j]
  }

  predicate ApartFrom(a: Edit, b: Edit) {
    a.hi <= b.lo || b.hi <= a.lo
  }

  ghost predicate PairwiseApart(es: seq<Edit>) {
    forall i, j :: 0 <= i < j < |es| ==> ApartFrom(es[i], es[j])
  }

  /** e replaces the j-th node. */
  ghost predicate Replaces(e: Edit, ns: seq<CallNode>, j: nat) {
    j < |ns| && e.lo == ns[j].idx0 - 1 && e.hi == ns[j].idx1 - 1 && e.text != ""
  }

  /** Every edit replaces some node that looks up one of the names. */
  ghost predicate ReplaceLookups(es: seq<Edit>, ns: seq<CallNode>, names: seq<string>) {
    forall i :: 0 <= i < |es| ==> ReplacesSome(es[i], ns, names)
  }

  ghost predicate ReplacesSome(e: Edit, ns: seq<CallNode>, names: seq<string>) {
    exists j: nat :: Replaces(e, ns, j) && ns[j].arg in names
  }

  lemma {:induction false} EditsForReplace(ns: seq<CallNode>, all: seq<CallNode>, name: string, json: string)
    requires ns <= all
    ensures ReplaceLookups(EditsFor(ns, name, json), all, [name])
  {
    if ns != [] {
      var init, k := ns[..|ns| - 1], |ns| - 1;
      EditsForReplace(init, all, name, json);
      assert EditsFor(init, name, json) + [] == EditsFor(init, name, json);
      assert ns[k] == all[k];
      assert ns[k].arg == name ==>
               Replaces(EditOf(ns[k], json), all, k) && ReplacesSome(EditOf(ns[k], json), all, [name]);
    }
  }

  lemma {:induction false} NodesApart(ns: seq<CallNode>, from: nat, end: nat, i: nat, j: nat)
    requires InOrder(ns, from, end) && i < j < |ns|
    ensures from <= ns[i].idx0 < ns[i].idx1 <= ns[j].idx0 < ns[j].idx1 <= end
    decreases |ns|
  {
    if i == 0 {
      NodeWithin(ns[1..], ns[0].idx1, end, j - 1);
    } else {
      NodesApart(ns[1..], ns[0].idx1, end, i - 1, j - 1);
    }
  }

  lemma {:induction false} NodeWithin(ns: seq<CallNode>, from: nat, end: nat, j: nat)
    requires InOrder(ns, from, end) && j < |ns|
    ensures from <= ns[j].idx0 < ns[j].idx1 <= end
    decreases |ns|
  {
    InOrderFits(ns[1..], ns[0].idx1, end);
    if j > 0 {
      NodeWithin(ns[1..], ns[0].idx1, end, j - 1);
    }
  }

  lemma {:induction false} IncreasingApart(es: seq<Edit>, from: int, end: int)
    requires Increasing(es, from, end)
    ensures PairwiseApart(es) && forall i :: 0 <= i < |es| ==> from <= es[i].lo
    decreases |es|
  {
    if es != [] {
      IncreasingApart(es[1..], es[0].hi, end);
      assert forall i :: 0 < i < |es| ==> es[i] == es[1..][i - 1];
    }
  }

  /** Replacements of lookups of different names are replacements of different nodes. */
  lemma {:induction false} OtherNameApart(ns: seq<CallNode>, from: nat, end: nat, a: seq<Edit>, b: seq<Edit>,
                                          names: seq<string>, name: string)
    requires InOrder(ns, from, end) && ReplaceLookups(a, ns, names) && ReplaceLookups(b, ns, [name])
    requires name !in names && PairwiseApart(a) && PairwiseApart(b)
    ensures PairwiseApart(a + b)
  {
    var es := a + b;
    forall i, j | 0 <= i < j < |es|
      ensures ApartFrom(es[i], es[j])
    {
      if i < |a| <= j {
        assert ReplacesSome(a[i], ns, names);
        var x: nat :| Replaces(a[i], ns, x) && ns[x].arg in names;
        assert ReplacesSome(b[j - |a|], ns, [name]);
        var y: nat :| Replaces(b[j - |a|], ns, y) && ns[y].arg in [name];
        assert x != y;
        NodesApart(ns, from, end, if x < y then x else y, if x < y then y else x);
      } else if j < |a| {
        assert ApartFrom(a[i], a[j]);
      } else {
        assert ApartFrom(b[i - |a|], b[j - |a|]);
      }
    }
  }

  lemma ReplaceMore(a: seq<Edit>, b: seq<Edit>, ns: seq<CallNode>, names: seq<string>, name: string)
    requires ReplaceLookups(a, ns, names) && ReplaceLookups(b, ns, [name])
    ensures ReplaceLookups(a + b, ns, names + [name])
  {
    var es := a + b;
    forall i | 0 <= i < |es|
      ensures ReplacesSome(es[i], ns, names + [name])
    {
      if i < |a| {
        assert ReplacesSome(a[i], ns, names);
        var j: nat :| Replaces(a[i], ns, j) && ns[j].arg in names;
        assert Replaces(es[i], ns, j) && ns[j].arg in names + [name];
      } else {
        assert ReplacesSome(b[i - |a|], ns, [name]);
        var j: nat :| Replaces(b[i - |a|], ns, j) && ns[j].arg in [name];
        assert Replaces(es[i], ns, j) && ns[j].arg in names + [name];
      }
    }
  }

  lemma ReplaceWider(a: seq<Edit>, ns: seq<CallNode>, names: seq<string>, more: seq<string>)
    requires ReplaceLookups(a, ns, names) && forall x :: x in names ==> x in more
    ensures ReplaceLookups(a, ns, more)
  {
    forall i | 0 <= i < |a|
      ensures ReplacesSome(a[i], ns, more)
    {
      assert ReplacesSome(a[i], ns, names);
      var j: nat :| Replaces(a[i], ns, j) && ns[j].arg in names;
      assert Replaces(a[i], ns, j) && ns[j].arg in more;
    }
  }

  /** All replacements of one patch are of different lookups. */
  lemma {:induction false} EditsApart(params: seq<string>, ns: seq<CallNode>, rs: seq<Resolution>, from: nat, end: nat)
    requires |params| <= |rs| && Distinct(params) && InOrder(ns, from, end)
    requires Edits(params, ns, rs).Some?
    ensures var es := Edits(params, ns, rs).value; PairwiseApart(es) && ReplaceLookups(es, ns, params)
  {
    hide ReplaceLookups, PairwiseApart, InOrder, EditsFor, Used;
    if params == [] {
      NothingToReplace(ns, params);
    } else {
      var k := |params| - 1;
      var init, name := params[..k], params[k];
      assert params == init + [name];
      EditsApart(init, ns, rs, from, end);
      var a := Edits(init, ns, rs).value;
      if rs[k].Unresolved? || !Used(ns, name) {
        ReplaceWider(a, ns, init, params);
      } else {
        var json := Serialised(rs[k]).value;
        var b := EditsFor(ns, name, json);
        EditsForReplace(ns, ns, name, json);
        EditsForIncrease(ns, name, json, from, end);
        IncreasingApart(b, from - 1, end - 1);
        assert name !in init;
        OtherNameApart(ns, from, end, a, b, init, name);
        ReplaceMore(a, b, ns, init, name);
      }
    }
  }

  lemma NothingToReplace(ns: seq<CallNode>, names: seq<string>)
    ensures PairwiseApart([]) && ReplaceLookups([], ns, names)
  {
  }

  lemma {:induction false} FileMembers(sorted: seq<Edit>, e: Edit, x: Edit)
    ensures x in File(sorted, e) <==> x in sorted || x == e
    decreases |sorted|
  {
    if sorted != [] && e.hi > sorted[0].lo {
      FileMembers(sorted[1..], e, x);
      assert sorted == [sorted[0]] + sorted[1..];
    }
  }

  lemma {:induction false} ApartIsScattered(sorted: seq<Edit>, edits: seq<Edit>, end: int)
    requires PairwiseApart(edits) && forall e :: e in edits ==> 0 <= e.lo < e.hi <= end && e.text != ""
    requires forall x, e :: x in sorted && e in edits ==> ApartFrom(x, e)
    ensures Scattered(sorted, edits, end)
    decreases |edits|
  {
    if edits != [] {
      var e, rest := edits[0], edits[1..];
      assert forall x :: x in rest ==> x in edits;
      assert forall i :: 0 <= i < |rest| ==> rest[i] == edits[i + 1] && ApartFrom(edits[0], edits[i + 1]);
      forall x, y | x in File(sorted, e) && y in rest
        ensures ApartFrom(x, y)
      {
        FileMembers(sorted, e, x);
      }
      assert forall i :: 0 <= i < |sorted| ==> ApartFrom(sorted[i], e);
      ApartIsScattered(File(sorted, e), rest, end);
    }
  }

  // ----- what is replaced by what -----

  /** e replaces the j-th node, a lookup of the i-th parameter. */
  ghost predicate At(params: seq<string>, ns: seq<CallNode>, i: nat, j: nat, e: Edit) {
    && i < |params| && j < |ns| && ns[j].arg == params[i]
    && e.lo == ns[j].idx0 - 1 && e.hi == ns[j].idx1 - 1
  }

  /** The text that stands for what the parameter was resolved to. */
  ghost predicate StandsFor(text: string, r: Resolution) {
    || (r == Missing && text == "records.New(null)")
    || (r.Resolved? && r.json.Some? && text == "records.New(" + r.json.value + ")")
  }

  ghost predicate IsReplacement(params: seq<string>, ns: seq<CallNode>, rs: seq<Resolution>, e: Edit)
    requires |params| <= |rs|
  {
    exists i: nat, j: nat :: At(params, ns, i, j, e) && StandsFor(e.text, rs[i])
  }

  /** A parameter that is looked up was resolved to a record that cannot be serialised. */
  ghost predicate Unserialisable(params: seq<string>, ns: seq<CallNode>, rs: seq<Resolution>)
    requires |params| <= |rs|
  {
    exists i :: 0 <= i < |params| && rs[i] == Resolved(None) && Used(ns, params[i])
  }

  lemma {:induction false} EditsForAre(ns: seq<CallNode>, name: string, json: string, e: Edit)
    ensures e in EditsFor(ns, name, json) <==>
            exists j :: 0 <= j < |ns| && ns[j].arg == name && e == EditOf(ns[j], json)
  {
    if ns != [] {
      var init := ns[..|ns| - 1];
      EditsForAre(init, name, json, e);
      assert forall j :: 0 <= j < |init| ==> init[j] == ns[j];
    }
  }

  lemma {:induction false} NewReplacements(params: seq<string>, ns: seq<CallNode>, rs: seq<Resolution>, e: Edit)
    requires 0 < |params| <= |rs|
    ensures var k := |params| - 1;
            IsReplacement(params, ns, rs, e) <==>
            || IsReplacement(params[..k], ns, rs, e)
            || exists j: nat :: At(params, ns, k, j, e) && StandsFor(e.text, rs[k])
  {
    hide StandsFor;
    var k := |params| - 1;
    if i: nat, j: nat :| At(params, ns, i, j, e) && StandsFor(e.text, rs[i]) {
      assert i < k ==> At(params[..k], ns, i, j, e);
    }
    if i: nat, j: nat :| At(params[..k], ns, i, j, e) && StandsFor(e.text, rs[i]) {
      assert At(params, ns, i, j, e);
    }
  }

  lemma {:induction false} LastReplacements(params: seq<string>, ns: seq<CallNode>, rs: seq<Resolution>, e: Edit,
                                            json: string)
    requires 0 < |params| <= |rs| && !rs[|params| - 1].Unresolved? && Serialised(rs[|params| - 1]) == Some(json)
    ensures var k := |params| - 1;
            e in EditsFor(ns, params[k], json) <==>
            exists j: nat :: At(params, ns, k, j, e) && StandsFor(e.text, rs[k])
  {
    var k := |params| - 1;
    EditsForAre(ns, params[k], json, e);
    assert NewRecord("null") == "records.New(null)";
    if j: nat :| At(params, ns, k, j, e) && StandsFor(e.text, rs[k]) {
      assert e == EditOf(ns[j], json);
    }
    if j :| 0 <= j < |ns| && ns[j].arg == params[k] && e == EditOf(ns[j], json) {
      assert At(params, ns, k, j, e) && StandsFor(e.text, rs[k]);
    }
  }

  /** An edit is made exactly for each lookup of a parameter that was resolved: at the lookup's place, with the record's
      text, or null for a missing record. There is no patch exactly when a record that is needed cannot be
      serialised. */
  lemma {:induction false} EditsAre(params: seq<string>, ns: seq<CallNode>, rs: seq<Resolution>, e: Edit)
    requires |params| <= |rs|
    ensures Edits(params, ns, rs).None? <==> Unserialisable(params, ns, rs)
    ensures Edits(params, ns, rs).Some? ==> (e in Edits(params, ns, rs).value <==> IsReplacement(params, ns, rs, e))
  {
    hide IsReplacement, EditsFor, Used, At, StandsFor;
    if params == [] {
      NoReplacement(ns, rs, e);
    } else {
      var k := |params| - 1;
      EditsAre(params[..k], ns, rs, e);
      NewReplacements(params, ns, rs, e);
      NewUnserialisable(params, ns, rs);
      if !rs[k].Unresolved? && Serialised(rs[k]).Some? {
        LastReplacements(params, ns, rs, e, Serialised(rs[k]).value);
      }
      NothingReplaced(params, ns, k, rs[k], e);
    }
  }

  lemma NoReplacement(ns: seq<CallNode>, rs: seq<Resolution>, e: Edit)
    ensures !IsReplacement([], ns, rs, e)
  {
  }

  lemma NewUnserialisable(params: seq<string>, ns: seq<CallNode>, rs: seq<Resolution>)
    requires 0 < |params| <= |rs|
    ensures var k := |params| - 1;
            Unserialisable(params, ns, rs) <==>
            Unserialisable(params[..k], ns, rs) || (rs[k] == Resolved(None) && Used(ns, params[k]))
  {
    hide Used;
    var k := |params| - 1;
    assert forall i :: 0 <= i < k ==> params[..k][i] == params[i];
  }

  /** Nothing stands for an unresolved parameter, and a parameter without lookups replaces nothing. */
  lemma NothingReplaced(params: seq<string>, ns: seq<CallNode>, k: nat, r: Resolution, e: Edit)
    requires k < |params|
    ensures r.Unresolved? ==> !StandsFor(e.text, r)
    ensures !Used(ns, params[k]) ==> forall j: nat :: !At(params, ns, k, j, e)
  {
  }

  // ----- in which order -----

  /** Edits come parameter by parameter, and for one parameter in source order. */
  ghost predicate InParameterOrder(params: seq<string>, ns: seq<CallNode>, es: seq<Edit>) {
    forall a, b, i: nat, j: nat, i': nat, j': nat ::
      0 <= a < b < |es| && At(params, ns, i, j, es[a]) && At(params, ns, i', j', es[b]) ==>
        i < i' || (i == i' && j < j')
  }

  /** The node an edit replaces is the only one at its place, and its name is that of one parameter only. */
  lemma {:induction false} OnePlace(params: seq<string>, ns: seq<CallNode>, from: nat, end: nat, e: Edit, i: nat, j: nat,
                                    x: nat)
    requires Distinct(params) && InOrder(ns, from, end) && At(params, ns, i, j, e) && Replaces(e, ns, x)
    ensures j == x && (forall k :: 0 <= k < |params| && ns[x].arg == params[k] ==> k == i)
  {
    if j < x {
      NodesApart(ns, from, end, j, x);
      assert false;
    } else if x < j {
      NodesApart(ns, from, end, x, j);
      assert false;
    }
  }

  lemma {:induction false} EditsInOrder(params: seq<string>, ns: seq<CallNode>, rs: seq<Resolution>, from: nat,
                                        end: nat)
    requires |params| <= |rs| && Distinct(params) && InOrder(ns, from, end) && Edits(params, ns, rs).Some?
    ensures InParameterOrder(params, ns, Edits(params, ns, rs).value)
  {
    hide InParameterOrder, InOrder, EditsFor, Used, Distinct, At;
    if params == [] {
      EmptyInOrder(params, ns);
    } else {
      var k := |params| - 1;
      DistinctPrefix(params);
      EditsInOrder(params[..k], ns, rs, from, end);
      EditsApart(params[..k], ns, rs, from, end);
      var a := Edits(params[..k], ns, rs).value;
      var json := if rs[k].Unresolved? || !Used(ns, params[k]) then "" else Serialised(rs[k]).value;
      var b := if rs[k].Unresolved? || !Used(ns, params[k]) then [] else EditsFor(ns, params[k], json);
      if !rs[k].Unresolved? && Used(ns, params[k]) {
        EditsForIncrease(ns, params[k], json, from, end);
        EditsForReplace(ns, ns, params[k], json);
      } else {
        NothingToReplace(ns, [params[k]]);
        InOrderFits(ns, from, end);
        assert a + b == a;
      }
      forall x, y, i: nat, j: nat, i': nat, j': nat | 0 <= x < y < |a + b|
        && At(params, ns, i, j, (a + b)[x]) && At(params, ns, i', j', (a + b)[y])
        ensures i < i' || (i == i' && j < j')
      {
        TwoInOrder(params, ns, from, end, a, b, x, y, i, j, i', j');
      }
      OrderIs(params, ns, a + b);
    }
  }

  lemma EmptyInOrder(params: seq<string>, ns: seq<CallNode>)
    ensures InParameterOrder(params, ns, [])
  {
  }

  lemma DistinctPrefix(params: seq<string>)
    requires Distinct(params) && params != []
    ensures Distinct(params[..|params| - 1])
  {
  }

  lemma OrderIs(params: seq<string>, ns: seq<CallNode>, es: seq<Edit>)
    requires forall x, y, i: nat, j: nat, i': nat, j': nat ::
               0 <= x < y < |es| && At(params, ns, i, j, es[x]) && At(params, ns, i', j', es[y]) ==>
                 i < i' || (i == i' && j < j')
    ensures InParameterOrder(params, ns, es)
  {
  }

  lemma {:induction false} IncreasingPair(es: seq<Edit>, from: int, end: int, x: nat, y: nat)
    requires Increasing(es, from, end) && x < y < |es|
    ensures es[x].hi <= es[y].lo
    decreases |es|
  {
    if x == 0 {
      IncreasingApart(es[1..], es[0].hi, end);
    } else {
      IncreasingPair(es[1..], es[0].hi, end, x - 1, y - 1);
    }
  }

  /** Edits of earlier parameters, then those of the last one in source order. */
  lemma {:induction false} TwoInOrder(params: seq<string>, ns: seq<CallNode>, from: nat, end: nat, a: seq<Edit>,
                                      b: seq<Edit>, x: nat, y: nat, i: nat, j: nat, i': nat, j': nat)
    requires params != [] && Distinct(params) && InOrder(ns, from, end) && x < y < |a + b|
    requires InParameterOrder(params[..|params| - 1], ns, a) && ReplaceLookups(a, ns, params[..|params| - 1])
    requires ReplaceLookups(b, ns, [params[|params| - 1]]) && Increasing(b, from - 1, end - 1)
    requires At(params, ns, i, j, (a + b)[x]) && At(params, ns, i', j', (a + b)[y])
    ensures i < i' || (i == i' && j < j')
  {
    var k := |params| - 1;
    var init := params[..k];
    if x < |a| {
      EarlierName(params, ns, from, end, a[x], i, j);
    } else {
      LastName(params, ns, from, end, b[x - |a|], i, j);
    }
    if y < |a| {
      EarlierName(params, ns, from, end, a[y], i', j');
      assert At(init, ns, i, j, a[x]) && At(init, ns, i', j', a[y]);
    } else {
      LastName(params, ns, from, end, b[y - |a|], i', j');
      if |a| <= x {
        IncreasingPair(b, from - 1, end - 1, x - |a|, y - |a|);
        NodeWithin(ns, from, end, j);
        NodeWithin(ns, from, end, j');
        if j' < j {
          NodesApart(ns, from, end, j', j);
        }
      }
    }
  }

  lemma {:induction false} EarlierName(params: seq<string>, ns: seq<CallNode>, from: nat, end: nat, e: Edit, i: nat,
                                       j: nat)
    requires params != [] && Distinct(params) && InOrder(ns, from, end) && At(params, ns, i, j, e)
    requires ReplacesSome(e, ns, params[..|params| - 1])
    ensures i < |params| - 1
  {
    var init := params[..|params| - 1];
    var x: nat :| Replaces(e, ns, x) && ns[x].arg in init;
    var k :| 0 <= k < |init| && init[k] == ns[x].arg;
    assert params[k] == ns[x].arg;
    OnePlace(params, ns, from, end, e, i, j, x);
  }

  lemma {:induction false} LastName(params: seq<string>, ns: seq<CallNode>, from: nat, end: nat, e: Edit, i: nat, j: nat)
    requires params != [] && Distinct(params) && InOrder(ns, from, end) && At(params, ns, i, j, e)
    requires ReplacesSome(e, ns, [params[|params| - 1]])
    ensures i == |params| - 1
  {
    var x: nat :| Replaces(e, ns, x) && ns[x].arg in [params[|params| - 1]];
    OnePlace(params, ns, from, end, e, i, j, x);
  }

  // ----- sources whose spans read as lookups -----

  lemma {:induction false} StripNone(s: string)
    requires forall i :: 0 <= i < |s| ==> s[i] !in {' ', '\t', '\n', '\r'}
    ensures StripSpaces(s) == s
  {
    if s != "" {
      StripNone(s[1..]);
    }
  }

  /** Exactly the characters that are not white space remain. */
  lemma {:induction false} StripRemoves(s: string, c: char)
    ensures c in StripSpaces(s) <==> c in s && c !in {' ', '\t', '\n', '\r'}
  {
    if s != "" {
      StripRemoves(s[1..], c);
      assert s == [s[0]] + s[1..];
    }
  }

  lemma {:induction false} StripConcat(a: string, b: string)
    ensures StripSpaces(a + b) == StripSpaces(a) + StripSpaces(b)
    ensures |StripSpaces(a)| <= |a|
  {
    if a == "" {
      assert a + b == b;
    } else {
      assert (a + b)[1..] == a[1..] + b;
      StripConcat(a[1..], b);
    }
  }

  /** The text of a call `records.Find(p)`: a callee reading so up to white space, and a closing parenthesis that
      follows neither a brace nor the word null in parentheses. */
  ghost predicate ReadsAsLookup(w: string) {
    && (exists c :: 0 <= c <= |w| && StripSpaces(w[..c]) == "records.Find")
    && |w| >= 6 && w[|w| - 1] == ')' && w[|w| - 2] != '}' && w[|w| - 6..] != "(null)"
  }

  /** A call of one identifier, which is not null and holds no brace or parenthesis, reads as a lookup. */
  lemma {:induction false} CallReadsAsLookup(callee: string, arg: string)
    requires StripSpaces(callee) == "records.Find"
    requires arg != "" && arg != "null" && '(' !in arg && '}' !in arg
    ensures ReadsAsLookup(callee + "(" + arg + ")")
  {
    var w := callee + "(" + arg + ")";
    StripConcat(callee, "");
    assert w[..|callee|] == callee;
    assert w[|w| - 2] == arg[|arg| - 1];
    var end := w[|w| - 6..];
    if |arg| > 4 {
      assert end[0] == arg[|arg| - 5];
    } else {
      assert w[|callee|] == '(' && w[|callee|] == end[4 - |arg|];
      assert |arg| == 4 ==> end[1..5] == arg && "(null)"[1..5] == "null";
    }
  }

  /** What a record serialises to: the word null for a missing one, otherwise an object. */
  predicate Marshalled(json: string) {
    json == "null" || (json != "" && json[|json| - 1] == '}')
  }

  lemma NewRecordIs(json: string)
    ensures var t := NewRecord(json);
      && |t| == |json| + 13 && t[..12] == "records.New(" && t[12..|t| - 1] == json && t[|t| - 1] == ')'
  {
  }

  /** A lookup and its replacement differ within the first nine characters. */
  lemma {:induction false} FrontDiffers(w: string) returns (d: nat)
    requires ReadsAsLookup(w)
    ensures d <= 8 && d < |w| && w[d] != "records.N"[d]
  {
    hide StripSpaces;
    var c :| 0 <= c <= |w| && StripSpaces(w[..c]) == "records.Find";
    StripConcat(w[..c], "");
    assert c >= 12;
    assert w[..c] == w[..9] + w[9..c];
    StripConcat(w[..9], w[9..c]);
    StripNone("records.N");
    assert StripSpaces(w[..c])[8] == 'F';
    assert w[..9] != "records.N";
    d :| 0 <= d < 9 && w[..9][d] != "records.N"[d];
  }

  /** They differ within the last six characters, and up to there the replacement has no other parenthesis that
      closes. */
  lemma {:induction false} BackDiffers(w: string, json: string) returns (d: nat)
    requires ReadsAsLookup(w) && Marshalled(json)
    ensures var t := NewRecord(json);
      && d < |w| && d < |t| && w[|w| - 1 - d] != t[|t| - 1 - d]
      && (forall i :: |t| - 1 - d <= i < |t| - 1 ==> t[i] != ')')
  {
    var t := NewRecord(json);
    NewRecordIs(json);
    if json == "null" {
      assert t[|t| - 6..] == "(null)";
      var end := w[|w| - 6..];
      var i :| 0 <= i < 6 && end[i] != "(null)"[i];
      d := 5 - i;
      assert t[|t| - 1 - d] == t[|t| - 6..][i];
      assert forall j :: |t| - 6 <= j < |t| ==> t[j] == t[|t| - 6..][j - (|t| - 6)];
    } else {
      assert t[|t| - 2] == json[|json| - 1];
      d := 1;
    }
  }

  /** One splice, position by position. */
  lemma SplicedAt(code: string, a: nat, n: nat, t: string, i: nat)
    requires a + n <= |code|
    ensures var x := code[..a] + t + code[a + n..];
      && |x| == |code| - n + |t|
      && (i < a ==> x[i] == code[i])
      && (a <= i < a + |t| ==> x[i] == t[i - a])
      && (a + |t| <= i < |x| ==> x[i] == code[i - |t| + n])
  {
  }

  /** The replacement put in too far right: its start does not overlap itself, so the lookup still shows. */
  lemma {:induction false} TooFarRight(code: string, a: nat, b: nat, n: nat, json: string)
    requires a < b && a + n <= |code| && b + n <= |code| && ReadsAsLookup(code[a..a + n])
    ensures var t := NewRecord(json); code[..a] + t + code[a + n..] != code[..b] + t + code[b + n..]
  {
    hide ReadsAsLookup, NewRecord;
    var t, w := NewRecord(json), code[a..a + n];
    NewRecordIs(json);
    assert forall i :: 0 <= i < 9 ==> t[i] == t[..12][i] == "records.N"[i];
    var d := FrontDiffers(w);
    var x, y, h := code[..a] + t + code[a + n..], code[..b] + t + code[b + n..], b - a;
    if d < h {
      SplicedAt(code, a, n, t, a + d);
      SplicedAt(code, b, n, t, a + d);
      assert code[a + d] == w[d];
    } else {
      SplicedAt(code, a, n, t, b);
      SplicedAt(code, b, n, t, b);
      SplicedAt(code, a, n, t, b + 1);
      SplicedAt(code, b, n, t, b + 1);
    }
  }

  /** And too far left: its end does not overlap itself. */
  lemma {:induction false} TooFarLeft(code: string, a: nat, b: nat, n: nat, json: string)
    requires b < a && a + n <= |code| && ReadsAsLookup(code[a..a + n]) && Marshalled(json)
    ensures var t := NewRecord(json); code[..a] + t + code[a + n..] != code[..b] + t + code[b + n..]
  {
    hide ReadsAsLookup, Marshalled, NewRecord;
    var t, w := NewRecord(json), code[a..a + n];
    var d := BackDiffers(w, json);
    NewRecordIs(json);
    var x, y, h, k := code[..a] + t + code[a + n..], code[..b] + t + code[b + n..], a - b, |t|;
    var i := if d < h then a + k - 1 - d else b + k - 1;
    SplicedAt(code, a, n, t, i);
    SplicedAt(code, b, n, t, i);
    assert d < h ==> y[i] == code[a + n - 1 - d] == w[n - 1 - d];
  }

  /** The edit replaces a lookup of the source by a serialised record. */
  ghost predicate Patches(src: string, e: Edit) {
    && 0 <= e.lo <= e.hi <= |src|
    && ReadsAsLookup(src[e.lo..e.hi])
    && IsNewRecord(e.text)
  }

  ghost predicate IsNewRecord(text: string) {
    exists json :: Marshalled(json) && text == NewRecord(json)
  }

  lemma {:induction false} ImageIsSpan(src: string, sorted: seq<Edit>, e: Edit)
    requires Increasing(sorted, 0, |src|) && Apart(sorted, e) && 0 <= e.lo < e.hi <= |src|
    ensures var code, a := Substitute(src, 0, sorted), e.lo + TotalGrowth(sorted) - GrowthAfter(sorted, e);
            0 <= a && a + e.hi - e.lo <= |code| && code[a..a + e.hi - e.lo] == src[e.lo..e.hi]
  {
    hide Substitute, GrowthAfter, TotalGrowth, Increasing;
    var code, a := Substitute(src, 0, sorted), e.lo + TotalGrowth(sorted) - GrowthAfter(sorted, e);
    ImageOfSpan(src, sorted, e, e.lo);
    ImageOfSpan(src, sorted, e, e.hi - 1);
    forall i | 0 <= i < e.hi - e.lo
      ensures code[a..a + e.hi - e.lo][i] == src[e.lo..e.hi][i]
    {
      ImageOfSpan(src, sorted, e, e.lo + i);
    }
  }

  /** On every source in which it replaces a lookup, a splice that is off target goes wrong. */
  lemma {:induction false} OffTargetLookup(src: string, sorted: seq<Edit>, e: Edit)
    requires Increasing(sorted, 0, |src|) && Apart(sorted, e) && e.lo < e.hi && Patches(src, e)
    requires GrowthAfter(sorted, e) != 0
    ensures Increasing(File(sorted, e), 0, |src|)
    ensures Splice(Substitute(src, 0, sorted), e, TotalGrowth(sorted)) !=
            Patched(Substitute(src, 0, File(sorted, e)))
  {
    hide Substitute, GrowthAfter, TotalGrowth, Increasing, File, ReadsAsLookup, Marshalled, NewRecord;
    SpliceInto(src, 0, sorted, e);
    ImageIsSpan(src, sorted, e);
    var json :| Marshalled(json) && e.text == NewRecord(json);
    var code, a := Substitute(src, 0, sorted), e.lo + TotalGrowth(sorted) - GrowthAfter(sorted, e);
    var b, n := a + GrowthAfter(sorted, e), e.hi - e.lo;
    if 0 <= b && b + n <= |code| {
      if a < b {
        TooFarRight(code, a, b, n, json);
      } else {
        TooFarLeft(code, a, b, n, json);
      }
    }
  }

  /** For lookups visited in any order, on any one source: every splice is right exactly when at each one the
      replacements already made further right have not changed the length. */
  lemma {:induction false} LookupOrderIff(src: string, sorted: seq<Edit>, edits: seq<Edit>)
    requires Increasing(sorted, 0, |src|) && Scattered(sorted, edits, |src|)
    requires forall i :: 0 <= i < |edits| ==> Patches(src, edits[i])
    ensures OnTarget(sorted, edits, |src|) <==> EverySpliceRight(src, sorted, edits)
    decreases |edits|
  {
    hide Splice, Substitute, File, Increasing, TotalGrowth, GrowthAfter, Apart, Patches;
    if edits != [] {
      var e, rest := edits[0], edits[1..];
      if GrowthAfter(sorted, e) == 0 {
        SpliceOnTarget(src, sorted, e);
        assert forall i :: 0 <= i < |rest| ==> rest[i] == edits[i + 1];
        LookupOrderIff(src, File(sorted, e), rest);
      } else {
        OffTargetLookup(src, sorted, e);
      }
    }
  }

  ghost predicate AllMarshalled(rs: seq<Resolution>) {
    forall i :: 0 <= i < |rs| && rs[i].Resolved? && rs[i].json.Some? ==> Marshalled(rs[i].json.value)
  }

  ghost predicate AllNewRecords(es: seq<Edit>) {
    forall i :: 0 <= i < |es| ==> IsNewRecord(es[i].text)
  }

  lemma {:induction false} EditsForText(ns: seq<CallNode>, name: string, json: string)
    requires Marshalled(json)
    ensures AllNewRecords(EditsFor(ns, name, json))
  {
    hide Marshalled, NewRecord;
    if ns != [] {
      EditsForText(ns[..|ns| - 1], name, json);
      assert IsNewRecord(EditOf(ns[|ns| - 1], json).text);
    }
  }

  lemma {:induction false} EditsText(params: seq<string>, ns: seq<CallNode>, rs: seq<Resolution>)
    requires |params| <= |rs| && AllMarshalled(rs) && Edits(params, ns, rs).Some?
    ensures AllNewRecords(Edits(params, ns, rs).value)
  {
    hide IsNewRecord, EditsFor, Used;
    if params != [] {
      var k := |params| - 1;
      EditsText(params[..k], ns, rs);
      if !rs[k].Unresolved? && Used(ns, params[k]) {
        EditsForText(ns, params[k], Serialised(rs[k]).value);
      }
    }
  }

  /** Every lookup that the walk collects reads as one in the source. */
  ghost predicate LookupsRead(src: string, ns: seq<CallNode>) {
    forall i :: 0 <= i < |ns| ==>
      1 <= ns[i].idx0 <= ns[i].idx1 <= |src| + 1 && ReadsAsLookup(src[ns[i].idx0 - 1..ns[i].idx1 - 1])
  }

  /** For any number of differently named parameters, any well-nested tree and any source of it: every step of the
      patch is right exactly when, at each lookup, the replacements already made further right have not changed the
      length. */
  lemma {:induction false} PatchIsRightIff(src: string, params: seq<string>, t: Tree, rs: seq<Resolution>)
    requires WellNested(t) && t.idx1 - 1 <= |src| && |params| <= |rs| && Distinct(params) && AllMarshalled(rs)
    requires LookupsRead(src, Lookups(params, t)) && Edits(params, Lookups(params, t), rs).Some?
    ensures var edits := Edits(params, Lookups(params, t), rs).value;
            OnTarget([], edits, |src|) <==> EverySpliceRight(src, [], edits)
  {
    hide OnTarget, EverySpliceRight, Scattered, Lookups, Edits, WellNested, PairwiseApart, ReadsAsLookup, IsNewRecord;
    var ns := Lookups(params, t);
    LookupsInOrder(params, t);
    TreeStarts(t);
    EditsApart(params, ns, rs, t.idx0, t.idx1);
    EditsText(params, ns, rs);
    var edits := Edits(params, ns, rs).value;
    forall i | 0 <= i < |edits|
      ensures Patches(src, edits[i]) && edits[i].lo < edits[i].hi && edits[i].text != ""
    {
      assert ReplacesSome(edits[i], ns, params);
      var j: nat :| Replaces(edits[i], ns, j) && ns[j].arg in params;
      NodeWithin(ns, t.idx0, t.idx1, j);
    }
    ApartIsScattered([], edits, |src|);
    LookupOrderIff(src, [], edits);
  }

  lemma TreeStarts(t: Tree)
    requires WellNested(t)
    ensures 1 <= t.idx0
  {
  }

  // ----- two parameters looked up in the opposite order -----

  function LookupOf(name: string, idx0: nat, idx1: nat): Tree {
    Tree(Call("records.Find", 1, Some(name)), idx0, idx1, [])
  }

  /** A function of a and b that looks up b and then a, neither of which is found. The patch goes through the
      parameters in order: replacing the second lookup lengthens the text by two, and the first is then cut two
      positions too far right. */
  lemma {:induction false} BackwardVisitGoesWrong(src: string, params: seq<string>, t: Tree, rs: seq<Resolution>)
    requires params == ["a", "b"]
    requires src == "function f(a,b){" + "records.Find(b)" + ";" + "records.Find(a)" + "}"
    requires t == Tree(Other, 16, 49, [LookupOf("b", 17, 32), LookupOf("a", 33, 48)])
    requires rs == [Missing, Missing]
    ensures WellNested(t) && src[16..31] == "records.Find(b)" && src[32..47] == "records.Find(a)"
    ensures var edits := Edits(params, Lookups(params, t), rs);
      && edits.Some? && Increasing(FileAll([], edits.value), 0, |src|)
      && SpliceAll(src, 0, edits.value) ==
         Patched("function f(a,b){" + "re" + "records.New(null)" + "ecords.New(null)" + "}")
      && Substitute(src, 0, FileAll([], edits.value)) ==
         "function f(a,b){" + "records.New(null)" + ";" + "records.New(null)" + "}"
  {
    hide StripSpaces, IsLookup, Lookups, Edits, SpliceAll, WellNested, FileAll, Increasing, Substitute;
    TwoNested(t, LookupOf("b", 17, 32), LookupOf("a", 33, 48));
    TwoLookups(params, t, LookupOf("b", 17, 32), LookupOf("a", 33, 48));
    var ns := [CallNode(17, 32, "b"), CallNode(33, 48, "a")];
    TwoEdits(params, ns, rs);
    var e0, e1 := Edit(32, 47, "records.New(null)"), Edit(16, 31, "records.New(null)");
    TwoSplices("function f(a,b){", "records.Find(b)", ";", "records.Find(a)", "}", e0, e1);
    TwoSubstituted("function f(a,b){", "records.Find(b)", ";", "records.Find(a)", "}", e0, e1);
  }

  lemma {:induction false} TwoNested(t: Tree, b: Tree, a: Tree)
    requires t == Tree(Other, 16, 49, [b, a]) && b == LookupOf("b", 17, 32) && a == LookupOf("a", 33, 48)
    ensures WellNested(t)
  {
    assert [b, a][1..] == [a] && [a][1..] == [];
    assert WellNested(a) && WellNested(b);
    assert NestedIn([a], 32, 49);
  }

  lemma {:induction false} FindIsStripped()
    ensures StripSpaces("records.Find") == "records.Find"
  {
    hide StripSpaces;
    StripNone("records.Find");
  }

  lemma {:induction false} TwoLookups(params: seq<string>, t: Tree, b: Tree, a: Tree)
    requires params == ["a", "b"] && t == Tree(Other, 16, 49, [b, a])
    requires b == LookupOf("b", 17, 32) && a == LookupOf("a", 33, 48)
    ensures Lookups(params, t) == [CallNode(17, 32, "b"), CallNode(33, 48, "a")]
  {
    hide StripSpaces;
    FindIsStripped();
    assert params[0] == "a" && params[1] == "b";
    assert IsLookup(params, a) && IsLookup(params, b);
    assert [b, a][1..] == [a] && [a][1..] == [];
    assert Lookups(params, a) == [CallNode(33, 48, "a")] && Lookups(params, b) == [CallNode(17, 32, "b")];
    assert LookupsIn(params, [a]) == [CallNode(33, 48, "a")] + LookupsIn(params, []);
    assert Lookups(params, t) == LookupsIn(params, t.children);
    assert LookupsIn(params, [b, a]) == [CallNode(17, 32, "b")] + LookupsIn(params, [a]);
  }

  lemma {:induction false} EditsForTwo(x: CallNode, y: CallNode, name: string, json: string)
    ensures EditsFor([x, y], name, json) ==
            (if x.arg == name then [EditOf(x, json)] else []) + (if y.arg == name then [EditOf(y, json)] else [])
  {
    assert [x, y][..1] == [x] && [x][..0] == [];
    assert EditsFor([x], name, json) == EditsFor([], name, json) + (if x.arg == name then [EditOf(x, json)] else []);
  }

  lemma {:induction false} TwoEdits(params: seq<string>, ns: seq<CallNode>, rs: seq<Resolution>)
    requires params == ["a", "b"] && ns == [CallNode(17, 32, "b"), CallNode(33, 48, "a")]
    requires rs == [Missing, Missing]
    ensures Edits(params, ns, rs) ==
            Some([Edit(32, 47, "records.New(null)"), Edit(16, 31, "records.New(null)")])
  {
    hide EditsFor;
    assert "a"[0] != "b"[0];
    assert ns[0].arg == "b" && ns[1].arg == "a";
    EditsForTwo(ns[0], ns[1], "a", "null");
    EditsForTwo(ns[0], ns[1], "b", "null");
    assert NewRecord("null") == "records.New(null)";
    assert EditsFor(ns, "a", "null") == [Edit(32, 47, "records.New(null)")];
    assert EditsFor(ns, "b", "null") == [Edit(16, 31, "records.New(null)")];
    assert params[..1] == ["a"] && ["a"][..0] == [];
    assert Edits([], ns, rs) == Some([]);
    assert Edits(["a"], ns, rs) == Some([] + EditsFor(ns, "a", "null"));
    var es := ([] + EditsFor(ns, "a", "null")) + EditsFor(ns, "b", "null");
    assert es == [Edit(32, 47, "records.New(null)"), Edit(16, 31, "records.New(null)")];
    assert Edits(params, ns, rs) == Some(es);
  }

  lemma {:induction false} TwoSplices(head: string, w1: string, sep: string, w0: string, tail: string,
                                      e0: Edit, e1: Edit)
    requires |head| == 16 && |w1| == 15 && |sep| == 1 && |w0| == 15 && w1[..2] == "re"
    requires e0 == Edit(32, 47, "records.New(null)") && e1 == Edit(16, 31, "records.New(null)")
    ensures SpliceAll(head + w1 + sep + w0 + tail, 0, [e0, e1]) ==
            Patched(head + "re" + "records.New(null)" + "ecords.New(null)" + tail)
  {
    hide Splice;
    var t := "records.New(null)";
    var src, once := head + w1 + sep + w0 + tail, head + w1 + sep + t + tail;
    SpliceExact(head + w1 + sep, w0, tail, e0, 0);
    assert w1 == "re" + w1[2..] && t == "r" + "ecords.New(null)";
    var cut := w1[2..] + sep + "r";
    assert once == (head + "re") + cut + ("ecords.New(null)" + tail);
    SpliceExact(head + "re", cut, "ecords.New(null)" + tail, e1, 2);
    assert (head + "re") + t + ("ecords.New(null)" + tail) == head + "re" + t + "ecords.New(null)" + tail;
    assert [e0, e1][1..] == [e1] && [e1][1..] == [];
    assert SpliceAll(once, 2, [e1]) == Splice(once, e1, 2);
  }

  lemma {:induction false} SpliceExact(a: string, w: string, b: string, e: Edit, shift: int)
    requires e.lo + shift == |a| && e.hi + shift == |a| + |w|
    ensures Splice(a + w + b, e, shift) == Patched(a + e.text + b)
  {
    SpliceAt(a, w, b, e.text);
  }

  lemma {:induction false} TwoSubstituted(head: string, w1: string, sep: string, w0: string, tail: string,
                                          e0: Edit, e1: Edit)
    requires |head| == 16 && |w1| == 15 && |sep| == 1 && |w0| == 15
    requires e0 == Edit(32, 47, "records.New(null)") && e1 == Edit(16, 31, "records.New(null)")
    ensures Increasing(FileAll([], [e0, e1]), 0, |head + w1 + sep + w0 + tail|)
    ensures Substitute(head + w1 + sep + w0 + tail, 0, FileAll([], [e0, e1])) ==
            head + "records.New(null)" + sep + "records.New(null)" + tail
  {
    var src, t := head + w1 + sep + w0 + tail, "records.New(null)";
    assert [e0, e1][1..] == [e1] && [e1][1..] == [] && [e1, e0][1..] == [e0] && [e0][1..] == [];
    assert File([], e0) == [e0] && File([e0], e1) == [e1, e0];
    assert FileAll([], [e0, e1]) == FileAll([e0], [e1]) == FileAll([e1, e0], []) == [e1, e0];
    assert Increasing([e0], 31, |src|) && Increasing([e1, e0], 0, |src|);
    assert Substitute(src, 47, []) == tail;
    assert Substitute(src, 31, [e0]) == src[31..32] + t + tail;
    assert src[31..32] == sep && src[0..16] == head;
    assert Substitute(src, 0, [e1, e0]) == head + t + (sep + t + tail);
  }

  // ----- the raccoon -----

  class AstRaccoon {
    const src: string
    const parameters: seq<string>
    var callNodes: seq<CallNode>
    var parametersToLookup: set<nat>

    /** What was marked belongs to what was collected. */
    ghost predicate Consistent()
      reads this
    {
      Marked(parametersToLookup, parameters, callNodes)
    }

    constructor (src: string, parameters: seq<string>, body: Tree)
      ensures this.src == src && this.parameters == parameters
      ensures callNodes == Lookups(parameters, body) && Consistent()
    {
      this.src, this.parameters := src, parameters;
      callNodes, parametersToLookup := [], {};
      new;
      Walk(body);
    }

    /** Look at one node; the walk goes on below it only if it is not a collected lookup. */
    method Enter(t: Tree) returns (descend: bool)
      requires Consistent()
      modifies this
      ensures Consistent()
      ensures descend <==> parameters != [] && !IsLookup(parameters, t)
      ensures callNodes == old(callNodes) +
                (if parameters != [] && IsLookup(parameters, t)
                 then [CallNode(t.idx0, t.idx1, t.kind.argument.value)] else [])
      ensures parametersToLookup == old(parametersToLookup) +
                (if IsLookup(parameters, t) then {FirstIndex(parameters, t.kind.argument.value)} else {})
    {
      if parameters == [] {
        return false;
      }
      if !t.kind.Call? || t.kind.args != 1 || StripSpaces(t.kind.callee) != "records.Find" || t.kind.argument.None? {
        return true;
      }
      var arg := t.kind.argument.value;
      var i := 0;
      while i < |parameters| && parameters[i] != arg
        invariant 0 <= i <= |parameters| && arg !in parameters[..i]
      {
        i := i + 1;
      }
      if i == |parameters| {
        assert parameters[..i] == parameters;
        return true;
      }
      FirstIs(parameters, arg, i);
      MarkOneMore(parametersToLookup, parameters, callNodes, CallNode(t.idx0, t.idx1, arg));
      parametersToLookup := parametersToLookup + {i};
      callNodes := callNodes + [CallNode(t.idx0, t.idx1, arg)];
      return false;
    }

    method Walk(t: Tree)
      requires Consistent()
      modifies this
      ensures Consistent() && callNodes == old(callNodes) + Lookups(parameters, t)
      decreases t
    {
      var descend := Enter(t);
      if descend {
        WalkAll(t.children);
      }
    }

    method WalkAll(ts: seq<Tree>)
      requires Consistent()
      modifies this
      ensures Consistent() && callNodes == old(callNodes) + LookupsIn(parameters, ts)
      decreases ts
    {
      if ts != [] {
        Walk(ts[0]);
        WalkAll(ts[1..]);
      }
    }

    /** Patch the source: for every resolved parameter, every lookup of it. */
    method PatchCode(rs: seq<Resolution>) returns (result: Outcome)
      requires |parameters| <= |rs|
      ensures Edits(parameters, callNodes, rs).Some? ==>
                result == SpliceAll(src, 0, Edits(parameters, callNodes, rs).value)
      ensures Edits(parameters, callNodes, rs).None? ==> !result.Patched?
    {
      hide Edits, SpliceAll, EditsFor, TotalGrowth;
      var newCode, shift := src, 0;
      ghost var made: seq<Edit> := [];
      NothingMade(callNodes, rs, src);
      for i := 0 to |parameters|
        invariant Edits(parameters[..i], callNodes, rs) == Some(made)
        invariant SpliceAll(src, 0, made) == Patched(newCode) && shift == TotalGrowth(made)
      {
        NextParameter(parameters, callNodes, rs, i, src, made);
        if !rs[i].Unresolved? && Used(callNodes, parameters[i]) {
          var json := Serialised(rs[i]);
          if json.None? {
            NoEdits(parameters, callNodes, rs, i + 1);
            return Failed;
          }
          made := made + EditsFor(callNodes, parameters[i], json.value);
          result, shift := PatchParameter(newCode, shift, parameters[i], json.value);
          if !result.Patched? {
            PanicStays(parameters, callNodes, rs, i + 1, src, made);
            return Panicked;
          }
          newCode := result.code;
        }
      }
      assert parameters[..|parameters|] == parameters;
      return Patched(newCode);
    }

    /** The inner loop: every lookup of one parameter. */
    method PatchParameter(code: string, shift0: int, name: string, json: string) returns (result: Outcome, shift: int)
      ensures result == SpliceAll(code, shift0, EditsFor(callNodes, name, json))
      ensures result.Patched? || result.Panicked?
      ensures shift == shift0 + TotalGrowth(EditsFor(callNodes, name, json)) || !result.Patched?
    {
      hide EditsFor, SpliceAll, TotalGrowth;
      var newCode := code;
      shift := shift0;
      NoneYet(callNodes, code, shift0, name, json);
      for k := 0 to |callNodes|
        invariant SpliceAll(code, shift0, EditsFor(callNodes[..k], name, json)) == Patched(newCode)
        invariant shift == shift0 + TotalGrowth(EditsFor(callNodes[..k], name, json))
      {
        var n := callNodes[k];
        NextLookup(callNodes, k, code, shift0, name, json);
        if n.arg == name {
          var text := NewRecord(json);
          var idx0, idx1 := n.idx0 + shift - 1, n.idx1 + shift - 1;
          if !(0 <= idx0 <= |newCode| && 0 <= idx1 <= |newCode|) {
            MadeStays(callNodes, k + 1, name, json, code, shift0);
            return Panicked, shift;
          }
          newCode := newCode[..idx0] + text + newCode[idx1..];
          shift := shift + |text| - (idx1 - idx0);
        }
      }
      assert callNodes[..|callNodes|] == callNodes;
      return Patched(newCode), shift;
    }
  }

  lemma {:induction false} NoneYet(ns: seq<CallNode>, code: string, shift: int, name: string, json: string)
    ensures SpliceAll(code, shift, EditsFor(ns[..0], name, json)) == Patched(code)
    ensures TotalGrowth(EditsFor(ns[..0], name, json)) == 0
  {
  }

  /** One more iteration of the loop over the lookups. */
  lemma {:induction false} NextLookup(ns: seq<CallNode>, k: nat, code: string, shift: int, name: string, json: string)
    requires k < |ns|
    ensures var made, more := EditsFor(ns[..k], name, json), EditsFor(ns[..k + 1], name, json);
      && (ns[k].arg != name ==> more == made)
      && (ns[k].arg == name ==>
            && TotalGrowth(more) == TotalGrowth(made) + Growth(EditOf(ns[k], json))
            && (SpliceAll(code, shift, made).Patched? ==>
                  SpliceAll(code, shift, more) ==
                  Splice(SpliceAll(code, shift, made).code, EditOf(ns[k], json), shift + TotalGrowth(made))))
  {
    hide SpliceAll, TotalGrowth, Splice;
    assert ns[..k + 1][..k] == ns[..k];
    var made := EditsFor(ns[..k], name, json);
    assert made + [] == made;
    OneMore(code, shift, made, EditOf(ns[k], json));
  }

  lemma {:induction false} NothingMade(ns: seq<CallNode>, rs: seq<Resolution>, src: string)
    ensures Edits([], ns, rs) == Some([]) && SpliceAll(src, 0, []) == Patched(src) && TotalGrowth([]) == 0
  {
  }

  /** One more iteration of the loop over the parameters. */
  lemma {:induction false} NextParameter(params: seq<string>, ns: seq<CallNode>, rs: seq<Resolution>, i: nat,
                                         src: string, made: seq<Edit>)
    requires i < |params| <= |rs| && Edits(params[..i], ns, rs) == Some(made)
    ensures rs[i].Unresolved? || !Used(ns, params[i]) ==> Edits(params[..i + 1], ns, rs) == Some(made)
    ensures !rs[i].Unresolved? && Used(ns, params[i]) ==>
              match Serialised(rs[i])
              case None => Edits(params[..i + 1], ns, rs) == None
              case Some(json) =>
                var more := EditsFor(ns, params[i], json);
                && Edits(params[..i + 1], ns, rs) == Some(made + more)
                && TotalGrowth(made + more) == TotalGrowth(made) + TotalGrowth(more)
                && (SpliceAll(src, 0, made).Patched? ==>
                      SpliceAll(src, 0, made + more) ==
                      SpliceAll(SpliceAll(src, 0, made).code, TotalGrowth(made), more))
  {
    hide EditsFor, Used, SpliceAll, TotalGrowth, Splice;
    assert params[..i + 1][..i] == params[..i];
    if Serialised(rs[i]).Some? {
      var more := EditsFor(ns, params[i], Serialised(rs[i]).value);
      SpliceAllConcat(src, 0, made, more);
      TotalGrowthConcat(made, more);
    }
  }

  lemma {:induction false} TotalGrowthConcat(a: seq<Edit>, b: seq<Edit>)
    ensures TotalGrowth(a + b) == TotalGrowth(a) + TotalGrowth(b)
    decreases |a|
  {
    if a == [] {
      assert a + b == b;
    } else {
      assert (a + b)[1..] == a[1..] + b;
      TotalGrowthConcat(a[1..], b);
    }
  }

  lemma {:induction false} OneMore(code: string, shift: int, made: seq<Edit>, e: Edit)
    ensures SpliceAll(code, shift, made).Patched? ==>
              SpliceAll(code, shift, made + [e]) ==
              Splice(SpliceAll(code, shift, made).code, e, shift + TotalGrowth(made))
    ensures TotalGrowth(made + [e]) == TotalGrowth(made) + Growth(e)
  {
    SpliceAllConcat(code, shift, made, [e]);
    TotalGrowthConcat(made, [e]);
    assert [e][1..] == [];
  }

  /** A panic ends the patching: what would have followed does not matter. */
  lemma {:induction false} MadeStays(ns: seq<CallNode>, k: nat, name: string, json: string, code: string, shift: int)
    requires k <= |ns| && !SpliceAll(code, shift, EditsFor(ns[..k], name, json)).Patched?
    ensures SpliceAll(code, shift, EditsFor(ns, name, json)) == SpliceAll(code, shift, EditsFor(ns[..k], name, json))
    decreases |ns| - k
  {
    if k == |ns| {
      assert ns[..k] == ns;
    } else {
      assert ns[..k + 1][..k] == ns[..k];
      var more := if ns[k].arg == name then [EditOf(ns[k], json)] else [];
      SpliceAllConcat(code, shift, EditsFor(ns[..k], name, json), more);
      MadeStays(ns, k + 1, name, json, code, shift);
    }
  }

  lemma {:induction false} NoEdits(params: seq<string>, ns: seq<CallNode>, rs: seq<Resolution>, k: nat)
    requires k <= |params| <= |rs| && Edits(params[..k], ns, rs).None?
    ensures Edits(params, ns, rs).None?
    decreases |params| - k
  {
    if k == |params| {
      assert params[..k] == params;
    } else {
      assert params[..k + 1][..k] == params[..k];
      NoEdits(params, ns, rs, k + 1);
    }
  }

  lemma {:induction false} PanicStays(params: seq<string>, ns: seq<CallNode>, rs: seq<Resolution>, k: nat, src: string,
                                      made: seq<Edit>)
    requires k <= |params| <= |rs| && Edits(params[..k], ns, rs) == Some(made) && SpliceAll(src, 0, made) == Panicked
    ensures Edits(params, ns, rs).Some? ==> SpliceAll(src, 0, Edits(params, ns, rs).value) == Panicked
    decreases |params| - k
  {
    if k == |params| {
      assert params[..k] == params;
    } else {
      assert params[..k + 1][..k] == params[..k];
      var next := Edits(params[..k + 1], ns, rs);
      if next.None? {
        NoEdits(params, ns, rs, k + 1);
      } else {
        if !rs[k].Unresolved? && Used(ns, params[k]) {
          SpliceAllConcat(src, 0, made, EditsFor(ns, params[k], Serialised(rs[k]).value));
        }
        PanicStays(params, ns, rs, k + 1, src, next.value);
      }
    }
  }
}
