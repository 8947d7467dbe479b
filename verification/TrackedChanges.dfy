/** Tracked changes as text transforms: stripping pending deletions, and wrapping pending ranges in
    `\TCadd{...}` / `\TCdel{...}`. Mark ends are JSON numbers, so ranges have real ends and slices
    truncate them. */
module TrackedChanges {
  import opened Common

  datatype Num = Finite(at: real) | NotFinite
  datatype Kind = Ins | Del
  datatype Mark = NoMark | Mark(kind: Option<Kind>, from: Num, to: Num)
  datatype Range = Range(kind: Kind, from: real, to: real)

  // ---------------------------------------------------------------- from marks to ranges

  predicate Proper(m: Mark) {
    m.Mark? && m.kind.Some? && m.from.Finite? && m.to.Finite? && m.from.at < m.to.at
  }

  function Clamp(x: real, n: nat): (y: real)
    ensures 0.0 <= y <= n as real
  {
    if x < 0.0 then 0.0 else if x > n as real then n as real else x
  }

  function RangeOf(m: Mark, n: nat): (r: Range)
    requires Proper(m)
    ensures 0.0 <= r.from <= r.to <= n as real
  {
    Range(m.kind.value, Clamp(m.from.at, n), Clamp(m.to.at, n))
  }

  /** Filter, clamp, filter: the ranges of the marks of the given kinds. */
  function Ranges(ms: seq<Mark>, kinds: set<Kind>, n: nat): (rs: seq<Range>)
    ensures forall r :: r in rs ==> 0.0 <= r.from < r.to <= n as real
    ensures forall r :: r in rs <==> exists m :: m in ms && Proper(m) && m.kind.value in kinds
                                              && RangeOf(m, n) == r && r.from < r.to
  {
    if ms == [] then []
    else
      var m, rest := ms[0], Ranges(ms[1..], kinds, n);
      assert forall x :: x in ms <==> x == m || x in ms[1..];
      if Proper(m) && m.kind.value in kinds && RangeOf(m, n).from < RangeOf(m, n).to
      then [RangeOf(m, n)] + rest else rest
  }

  /** Where a slice that uses these ends starts and stops. */
  function Lo(r: Range): int { r.from.Floor }

  function Hi(r: Range): int { r.to.Floor }

  ghost predicate Ordered(rs: seq<Range>) {
    forall i, j :: 0 <= i < j < |rs| ==> rs[i].from <= rs[j].from
  }

  /** The stable sort by `from`: an element goes behind those that are not larger. */
  function Insert(r: Range, rs: seq<Range>): seq<Range> {
    if rs == [] then [r]
    else if r.from < rs[0].from then [r] + rs
    else [rs[0]] + Insert(r, rs[1..])
  }

  lemma {:induction false} InsertAdds(r: Range, rs: seq<Range>)
    ensures multiset(Insert(r, rs)) == multiset(rs) + multiset{r} && |Insert(r, rs)| == |rs| + 1
  {
    if rs != [] {
      assert rs == [rs[0]] + rs[1..];
      if r.from >= rs[0].from { InsertAdds(r, rs[1..]); }
    }
  }

  /** A list that is ordered behind its first element, which is smallest, is ordered. */
  lemma ConsIsOrdered(r: Range, rs: seq<Range>)
    requires Ordered(rs) && (rs != [] ==> r.from <= rs[0].from)
    ensures Ordered([r] + rs)
  {
    var s := [r] + rs;
    forall j | 0 < j < |s| ensures r.from <= s[j].from {
      assert s[j] == rs[j - 1] && rs[0].from <= rs[j - 1].from;
    }
  }

  lemma {:induction false} InsertIsOrdered(r: Range, rs: seq<Range>)
    requires Ordered(rs)
    ensures Ordered(Insert(r, rs)) && Insert(r, rs) != []
    ensures Insert(r, rs)[0] == if rs == [] || r.from < rs[0].from then r else rs[0]
  {
    if rs != [] {
      if r.from < rs[0].from {
        ConsIsOrdered(r, rs);
      } else {
        InsertIsOrdered(r, rs[1..]);
        ConsIsOrdered(rs[0], Insert(r, rs[1..]));
      }
    }
  }

  function Sort(rs: seq<Range>): (s: seq<Range>)
    ensures Ordered(s) && multiset(s) == multiset(rs) && |s| == |rs|
    ensures forall x :: x in s <==> x in rs
  {
    if rs == [] then []
    else
      var front, last := rs[..|rs| - 1], rs[|rs| - 1];
      assert rs == front + [last];
      InsertAdds(last, Sort(front));
      InsertIsOrdered(last, Sort(front));
      SameElements(Insert(last, Sort(front)), rs);
      Insert(last, Sort(front))
  }

  lemma SameElements(a: seq<Range>, b: seq<Range>)
    requires multiset(a) == multiset(b)
    ensures forall x :: x in a <==> x in b
  {
    forall x ensures x in a <==> x in b { assert x in a <==> x in multiset(a); }
  }

  /** The ranges that start at `x`, in order. */
  function StartingAt(rs: seq<Range>, x: real): seq<Range> {
    if rs == [] then [] else (if rs[0].from == x then [rs[0]] else []) + StartingAt(rs[1..], x)
  }

  lemma {:induction false} NoneStartAt(rs: seq<Range>, x: real)
    requires forall r :: r in rs ==> r.from != x
    ensures StartingAt(rs, x) == []
  {
    if rs != [] { NoneStartAt(rs[1..], x); }
  }

  lemma StartingAtCons(r: Range, rs: seq<Range>, x: real)
    ensures StartingAt([r] + rs, x) == (if r.from == x then [r] else []) + StartingAt(rs, x)
  {
    assert ([r] + rs)[1..] == rs;
  }

  lemma SmallerInFront(r: Range, rs: seq<Range>, x: real)
    requires Ordered(rs) && rs != [] && r.from < rs[0].from
    ensures StartingAt([r] + rs, x) == StartingAt(rs, x) + if r.from == x then [r] else []
  {
    StartingAtCons(r, rs, x);
    if r.from == x {
      forall q | q in rs ensures q.from != x { var i :| 0 <= i < |rs| && rs[i] == q; }
      NoneStartAt(rs, x);
    }
  }

  lemma {:induction false} InsertIsStable(r: Range, rs: seq<Range>, x: real)
    requires Ordered(rs)
    ensures StartingAt(Insert(r, rs), x) == StartingAt(rs, x) + if r.from == x then [r] else []
  {
    if rs == [] {
      StartingAtCons(r, [], x);
    } else if r.from < rs[0].from {
      SmallerInFront(r, rs, x);
    } else {
      InsertIsStable(r, rs[1..], x);
      StartingAtCons(rs[0], Insert(r, rs[1..]), x);
      ConcatAssociates(if rs[0].from == x then [rs[0]] else [], StartingAt(rs[1..], x),
                       if r.from == x then [r] else []);
    }
  }

  lemma {:induction false} StartingAtAppend(rs: seq<Range>, r: Range, x: real)
    ensures StartingAt(rs + [r], x) == StartingAt(rs, x) + if r.from == x then [r] else []
  {
    if rs == [] {
      assert rs + [r] == [r] + [];
      StartingAtCons(r, [], x);
    } else {
      assert rs + [r] == [rs[0]] + (rs[1..] + [r]);
      StartingAtCons(rs[0], rs[1..] + [r], x);
      StartingAtAppend(rs[1..], r, x);
      ConcatAssociates(if rs[0].from == x then [rs[0]] else [], StartingAt(rs[1..], x),
                       if r.from == x then [r] else []);
    }
  }

  /** Ranges with the same start keep their order: of two that collide, the earlier mark wins. */
  lemma {:induction false} SortIsStable(rs: seq<Range>, x: real)
    ensures StartingAt(Sort(rs), x) == StartingAt(rs, x)
  {
    if rs != [] {
      var front, last := rs[..|rs| - 1], rs[|rs| - 1];
      SortIsStable(front, x);
      InsertIsStable(last, Sort(front), x);
      StartingAtAppend(front, last, x);
      assert front + [last] == rs && Sort(rs) == Insert(last, Sort(front));
    }
  }

  // ---------------------------------------------------------------- stripping deletions

  /** The mark is of the given kind and reaches over `lo..hi`, where it need not cover the first character
      whole. */
  ghost predicate Spans(m: Mark, kind: Kind, lo: nat, hi: nat) {
    && m.Mark? && m.kind == Some(kind) && m.from.Finite? && m.to.Finite?
    && m.from.at < (lo + 1) as real && hi as real <= m.to.at
  }

  ghost predicate Deletes(m: Mark, k: nat) { Spans(m, Del, k, k + 1) }

  /** Character `k` is deleted: some deletion mark starts before its end and ends no earlier. */
  ghost predicate Deleted(ms: seq<Mark>, k: nat) {
    exists m :: m in ms && Deletes(m, k)
  }

  ghost predicate Covered(rs: seq<Range>, k: int) {
    exists r :: r in rs && Lo(r) <= k < Hi(r)
  }

  /** The characters of `content` that lie in no range, in order. */
  ghost function Outside(content: string, rs: seq<Range>, upto: nat): string
    requires upto <= |content|
  {
    if upto == 0 then ""
    else Outside(content, rs, upto - 1) + if Covered(rs, upto - 1) then "" else [content[upto - 1]]
  }

  /** The characters of `content` that lie in no valid deletion mark, in order. */
  ghost function Undeleted(content: string, ms: seq<Mark>, upto: nat): string
    requires upto <= |content|
  {
    if upto == 0 then ""
    else Undeleted(content, ms, upto - 1) + if Deleted(ms, upto - 1) then "" else [content[upto - 1]]
  }

  /** Clamping and truncating a mark changes nothing about the characters of the file. */
  lemma SpansIffInRange(m: Mark, kind: Kind, n: nat, k: nat)
    requires k < n
    ensures Spans(m, kind, k, k + 1) <==>
              Proper(m) && m.kind.value == kind && Lo(RangeOf(m, n)) <= k < Hi(RangeOf(m, n))
  {
  }

  lemma DeletedIsCovered(ms: seq<Mark>, n: nat, k: nat)
    requires k < n
    ensures Deleted(ms, k) <==> Covered(Ranges(ms, {Del}, n), k)
  {
    var rs := Ranges(ms, {Del}, n);
    forall m { SpansIffInRange(m, Del, n, k); }
    if Deleted(ms, k) {
      var m :| m in ms && Deletes(m, k);
      assert RangeOf(m, n) in rs;
    }
  }

  lemma {:induction false} UndeletedIsOutside(content: string, ms: seq<Mark>, rs: seq<Range>, upto: nat)
    requires upto <= |content|
    requires forall k: nat :: k < upto ==> (Deleted(ms, k) <==> Covered(rs, k))
    ensures Undeleted(content, ms, upto) == Outside(content, rs, upto)
  {
    if upto > 0 { UndeletedIsOutside(content, ms, rs, upto - 1); }
  }

  lemma {:induction false} OutsideSegment(content: string, rs: seq<Range>, a: nat, b: nat)
    requires a <= b <= |content|
    requires (forall k :: a <= k < b ==> !Covered(rs, k)) || (forall k :: a <= k < b ==> Covered(rs, k))
    ensures Outside(content, rs, b)
         == Outside(content, rs, a) + if a < b && Covered(rs, a) then "" else content[a..b]
  {
    if a < b {
      OutsideSegment(content, rs, a, b - 1);
      if !Covered(rs, a) { assert content[a..b] == content[a..b - 1] + [content[b - 1]]; }
    }
  }

  /** Disjoint ranges with a gap between neighbours: what the merge loop builds. */
  ghost predicate Separated(rs: seq<Range>) {
    && (forall i :: 0 <= i < |rs| ==> rs[i].from < rs[i].to)
    && (forall i, j :: 0 <= i < j < |rs| ==> rs[i].to < rs[j].from)
  }

  /** Taking one more range, at or behind the last one, into a separated list. */
  function MergeInto(rs: seq<Range>, cur: Range): seq<Range>
    requires |rs| > 0
  {
    var last := rs[|rs| - 1];
    if cur.from <= last.to
    then rs[..|rs| - 1] + [last.(to := if cur.to > last.to then cur.to else last.to)]
    else rs + [cur]
  }

  lemma MergeIntoCovers(rs: seq<Range>, cur: Range, k: int)
    requires |rs| > 0 && rs[|rs| - 1].from <= cur.from < cur.to && rs[|rs| - 1].from < rs[|rs| - 1].to
    ensures Covered(MergeInto(rs, cur), k) <==> Covered(rs, k) || Lo(cur) <= k < Hi(cur)
  {
    var n := |rs| - 1;
    var init, last, next := rs[..n], rs[n], MergeInto(rs, cur);
    assert rs == init + [last];
    assert Covered(rs, k) <==> Covered(init, k) || Lo(last) <= k < Hi(last);
    if cur.from <= last.to {
      assert Covered(next, k) <==> Covered(init, k) || Lo(next[n]) <= k < Hi(next[n]);
      assert Lo(last) <= Lo(cur) <= Hi(last);
    } else {
      assert Covered(next, k) <==> Covered(rs, k) || Lo(cur) <= k < Hi(cur);
    }
  }

  lemma CoveredAppend(rs: seq<Range>, r: Range, k: int)
    ensures Covered(rs + [r], k) <==> Covered(rs, k) || Lo(r) <= k < Hi(r)
  {
    assert r in rs + [r];
  }

  lemma MergeIntoSeparates(rs: seq<Range>, cur: Range, n: nat)
    requires |rs| > 0 && Separated(rs) && rs[|rs| - 1].from <= cur.from < cur.to && cur.to <= n as real
    requires forall r :: r in rs ==> 0.0 <= r.from && r.to <= n as real
    ensures var next := MergeInto(rs, cur);
            |next| > 0 && Separated(next) && next[|next| - 1].from <= cur.from
            && forall r :: r in next ==> 0.0 <= r.from && r.to <= n as real
  {
    assert rs[|rs| - 1] in rs;
  }

  method MergeRanges(dels: seq<Range>, n: nat) returns (merged: seq<Range>)
    requires |dels| > 0 && Ordered(dels) && forall r :: r in dels ==> 0.0 <= r.from < r.to <= n as real
    ensures Separated(merged) && forall r :: r in merged ==> 0.0 <= r.from && r.to <= n as real
    ensures forall k :: Covered(merged, k) <==> Covered(dels, k)
  {
    merged := [dels[0]];
    var i := 1;
    while i < |dels|
      invariant 1 <= i <= |dels| && |merged| > 0 && Separated(merged)
      invariant forall r :: r in merged ==> 0.0 <= r.from && r.to <= n as real
      invariant merged[|merged| - 1].from <= dels[i - 1].from
      invariant forall k :: Covered(merged, k) <==> Covered(dels[..i], k)
    {
      var cur, last := dels[i], merged[|merged| - 1];
      ghost var before := merged;
      if cur.from <= last.to {
        merged := merged[|merged| - 1 := last.(to := if cur.to > last.to then cur.to else last.to)];
      } else {
        merged := merged + [cur];
      }
      assert merged == MergeInto(before, cur);
      MergeIntoSeparates(before, cur, n);
      assert dels[..i + 1] == dels[..i] + [cur];
      forall k ensures Covered(merged, k) <==> Covered(dels[..i + 1], k) {
        MergeIntoCovers(before, cur, k);
        CoveredAppend(dels[..i], cur, k);
      }
      i := i + 1;
    }
    assert dels[..i] == dels;
  }

  method StripPendingDeletions(content: string, tcMarks: seq<Mark>) returns (out: string)
    ensures out == Undeleted(content, tcMarks, |content|)
  {
    var dels := Ranges(tcMarks, {Del}, |content|);
    forall k: nat | k < |content| ensures Deleted(tcMarks, k) <==> Covered(dels, k) {
      DeletedIsCovered(tcMarks, |content|, k);
    }
    if |dels| == 0 {
      UndeletedIsOutside(content, tcMarks, dels, |content|);
      OutsideSegment(content, dels, 0, |content|);
      return content;
    }
    var sorted := Sort(dels);
    var merged := MergeRanges(sorted, |content|);
    UndeletedIsOutside(content, tcMarks, merged, |content|);
    out := Splice(content, merged);
  }

  ghost predicate Passed(merged: seq<Range>, i: nat, cursor: real) {
    i <= |merged| && (i < |merged| ==> cursor <= merged[i].from) && forall j :: 0 <= j < i ==> merged[j].to <= cursor
  }

  /** The gap before a range is kept, the range is not. */
  lemma SpliceStep(content: string, merged: seq<Range>, i: nat, cursor: real)
    requires Separated(merged) && i < |merged| && 0.0 <= cursor && Passed(merged, i, cursor)
    requires merged[i].to <= |content| as real
    ensures Passed(merged, i + 1, merged[i].to)
    ensures Outside(content, merged, Hi(merged[i]))
         == Outside(content, merged, cursor.Floor) + content[cursor.Floor..Lo(merged[i])]
  {
    var r := merged[i];
    GapIsUncovered(merged, i, cursor);
    forall k | Lo(r) <= k < Hi(r) ensures Covered(merged, k) { assert r in merged; }
    KeepThenDrop(content, merged, cursor.Floor, Lo(r), Hi(r));
    NextIsPassed(merged, i, cursor);
  }

  lemma NextIsPassed(merged: seq<Range>, i: nat, cursor: real)
    requires Separated(merged) && i < |merged| && Passed(merged, i, cursor)
    ensures Passed(merged, i + 1, merged[i].to)
  {
  }

  lemma KeepThenDrop(content: string, rs: seq<Range>, a: nat, b: nat, c: nat)
    requires a <= b <= c <= |content|
    requires (forall k :: a <= k < b ==> !Covered(rs, k)) && (forall k :: b <= k < c ==> Covered(rs, k))
    ensures Outside(content, rs, c) == Outside(content, rs, a) + content[a..b]
  {
    OutsideSegment(content, rs, a, b);
    OutsideSegment(content, rs, b, c);
  }

  lemma SpliceEnd(content: string, merged: seq<Range>, cursor: real)
    requires 0.0 <= cursor <= |content| as real && Passed(merged, |merged|, cursor)
    ensures Outside(content, merged, |content|) == Outside(content, merged, cursor.Floor) + content[cursor.Floor..]
  {
    forall k | cursor.Floor <= k < |content| ensures !Covered(merged, k) {}
    OutsideSegment(content, merged, cursor.Floor, |content|);
    assert content[cursor.Floor..|content|] == content[cursor.Floor..];
  }

  method Splice(content: string, merged: seq<Range>) returns (out: string)
    requires Separated(merged) && forall r :: r in merged ==> 0.0 <= r.from && r.to <= |content| as real
    ensures out == Outside(content, merged, |content|)
  {
    out := "";
    var cursor := 0.0;
    for i := 0 to |merged|
      invariant 0.0 <= cursor <= |content| as real && Passed(merged, i, cursor)
      invariant out == Outside(content, merged, cursor.Floor)
    {
      var r := merged[i];
      assert r in merged;
      SpliceStep(content, merged, i, cursor);
      if r.from > cursor { out := out + content[cursor.Floor..Lo(r)]; }
      cursor := r.to;
    }
    SpliceEnd(content, merged, cursor);
    if cursor < |content| as real { out := out + content[cursor.Floor..]; }
  }

  lemma GapIsUncovered(merged: seq<Range>, i: nat, cursor: real)
    requires Separated(merged) && i < |merged| && cursor <= merged[i].from
    requires forall j :: 0 <= j < i ==> merged[j].to <= cursor
    ensures forall k :: cursor.Floor <= k < Lo(merged[i]) ==> !Covered(merged, k)
  {
    forall k | cursor.Floor <= k < Lo(merged[i]) ensures !Covered(merged, k) {
      forall j | 0 <= j < |merged| ensures !(Lo(merged[j]) <= k < Hi(merged[j])) {
        if j > i { assert merged[i].from < merged[j].from; }
      }
    }
  }

  /** The result depends on the set of deletion marks alone: not on their order, nor on duplicates, nor on
      marks that are not deletions or have no proper ends. */
  lemma {:induction false} StripIgnoresOrder(content: string, a: seq<Mark>, b: seq<Mark>, upto: nat)
    requires upto <= |content|
    requires forall m, k: nat :: Deletes(m, k) ==> (m in a <==> m in b)
    ensures Undeleted(content, a, upto) == Undeleted(content, b, upto)
  {
    if upto > 0 {
      StripIgnoresOrder(content, a, b, upto - 1);
      assert Deleted(a, upto - 1) <==> Deleted(b, upto - 1);
    }
  }

  /** A mark with whole ends deletes the characters from the one up to the other. */
  lemma OneDeletion(content: string, lo: nat, hi: nat, m: Mark)
    requires lo <= hi <= |content| && m == Mark(Some(Del), Finite(lo as real), Finite(hi as real))
    ensures Undeleted(content, [m], |content|) == content[..lo] + content[hi..]
  {
    forall k: nat ensures Deleted([m], k) <==> lo <= k < hi { DeletedByOne(m, lo, hi, k); }
    UndeletedAround(content, [m], lo, hi);
  }

  lemma DeletedByOne(m: Mark, lo: nat, hi: nat, k: nat)
    requires m == Mark(Some(Del), Finite(lo as real), Finite(hi as real))
    ensures Deleted([m], k) <==> lo <= k < hi
  {
    assert m in [m] && (Deletes(m, k) <==> lo <= k < hi);
  }

  lemma UndeletedAround(content: string, ms: seq<Mark>, lo: nat, hi: nat)
    requires lo <= hi <= |content| && forall k: nat :: Deleted(ms, k) <==> lo <= k < hi
    ensures Undeleted(content, ms, |content|) == content[..lo] + content[hi..]
  {
    UndeletedSegment(content, ms, 0, lo);
    UndeletedSegment(content, ms, lo, hi);
    UndeletedSegment(content, ms, hi, |content|);
    assert content[0..lo] == content[..lo] && content[hi..|content|] == content[hi..];
  }

  lemma {:induction false} UndeletedSegment(content: string, ms: seq<Mark>, a: nat, b: nat)
    requires a <= b <= |content|
    requires (forall k: nat :: a <= k < b ==> !Deleted(ms, k)) || (forall k: nat :: a <= k < b ==> Deleted(ms, k))
    ensures Undeleted(content, ms, b)
         == Undeleted(content, ms, a) + if a < b && Deleted(ms, a) then "" else content[a..b]
  {
    if a < b {
      UndeletedSegment(content, ms, a, b - 1);
      if !Deleted(ms, a) { assert content[a..b] == content[a..b - 1] + [content[b - 1]]; }
    }
  }
}
