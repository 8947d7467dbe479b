/** The "All Markup" view: pending ranges become `\TCadd{...}` / `\TCdel{...}`. The output is described
    by pieces of the source: kept text, and text inside an inserted macro argument. */
module TcMarkup {
  import opened Common
  import opened TrackedChanges
  import opened TcPatterns

  datatype Piece = Keep(lo: nat, hi: nat) | Arg(kind: Kind, lo: nat, hi: nat)

  function Macro(k: Kind): string { if k.Ins? then "\\TCadd" else "\\TCdel" }

  function Show(s: string, p: Piece): string
    requires p.lo <= p.hi <= |s|
  {
    if p.Keep? then s[p.lo..p.hi] else Macro(p.kind) + "{" + s[p.lo..p.hi] + "}"
  }

  /** The pieces cut `lo..hi` into consecutive stretches. */
  predicate Tiles(ps: seq<Piece>, lo: nat, hi: nat) {
    if ps == [] then lo == hi
    else ps[0].lo == lo && lo <= ps[0].hi && Tiles(ps[1..], ps[0].hi, hi)
  }

  lemma {:induction false} TilesAppend(a: seq<Piece>, b: seq<Piece>, lo: nat, mid: nat, hi: nat)
    requires Tiles(a, lo, mid) && Tiles(b, mid, hi)
    ensures Tiles(a + b, lo, hi)
  {
    if a == [] {
      assert a + b == b;
    } else {
      assert (a + b)[1..] == a[1..] + b;
      TilesAppend(a[1..], b, a[0].hi, mid, hi);
    }
  }

  lemma {:induction false} TilesBounds(ps: seq<Piece>, lo: nat, hi: nat)
    requires Tiles(ps, lo, hi)
    ensures lo <= hi && forall p :: p in ps ==> lo <= p.lo <= p.hi <= hi
  {
    if ps != [] { TilesBounds(ps[1..], ps[0].hi, hi); }
  }

  function Render(s: string, ps: seq<Piece>): string
    requires forall p :: p in ps ==> p.lo <= p.hi <= |s|
  {
    if ps == [] then "" else Show(s, ps[0]) + Render(s, ps[1..])
  }

  /** What is left of the rendering when the inserted markup is erased. */
  function Source(s: string, ps: seq<Piece>): string
    requires forall p :: p in ps ==> p.lo <= p.hi <= |s|
  {
    if ps == [] then "" else s[ps[0].lo..ps[0].hi] + Source(s, ps[1..])
  }

  lemma {:induction false} RenderAppend(s: string, a: seq<Piece>, b: seq<Piece>)
    requires (forall p :: p in a ==> p.lo <= p.hi <= |s|) && (forall p :: p in b ==> p.lo <= p.hi <= |s|)
    ensures Render(s, a + b) == Render(s, a) + Render(s, b)
  {
    if a == [] {
      assert a + b == b;
    } else {
      assert (a + b)[1..] == a[1..] + b;
      RenderAppend(s, a[1..], b);
    }
  }

  lemma {:induction false} SourceOfTiles(s: string, ps: seq<Piece>, lo: nat, hi: nat)
    requires Tiles(ps, lo, hi) && hi <= |s| && forall p :: p in ps ==> p.lo <= p.hi <= |s|
    ensures lo <= hi && Source(s, ps) == s[lo..hi]
  {
    TilesBounds(ps, lo, hi);
    if ps != [] {
      SourceOfTiles(s, ps[1..], ps[0].hi, hi);
      assert s[lo..hi] == s[lo..ps[0].hi] + s[ps[0].hi..hi];
    }
  }

  // ---------------------------------------------------------------- paragraph breaks

  ghost predicate NoBreakIn(s: string, lo: nat, hi: nat)
    requires hi <= |s|
  {
    forall k :: lo <= k < hi ==> BreakEnd(s, k) == k
  }

  /** As a text of its own, `t` has no paragraph break. */
  ghost predicate BreakFree(t: string) { NoBreakIn(t, 0, |t|) }

  datatype Part = Text(lo: nat, hi: nat) | Break(lo: nat, hi: nat)

  /** `split` with a capturing group: texts and breaks in turn, text first and last. The scan is at
      `i`, the current text began at `start`. */
  function Parts(s: string, start: nat, i: nat): seq<Part>
    requires start <= i <= |s|
    decreases |s| - i
  {
    if i == |s| then [Text(start, i)]
    else
      var e := BreakEnd(s, i);
      if e == i then Parts(s, start, i + 1)
      else [Text(start, i), Break(i, e)] + Parts(s, e, e)
  }

  // ---------------------------------------------------------------- sectioning commands

  /** The index of the brace that closes a group opened `depth` levels before `i`. */
  function CloseOf(s: string, i: nat, depth: nat): (c: Option<nat>)
    requires i <= |s| && depth > 0
    ensures c.Some? ==> i <= c.value < |s| && s[c.value] == '}'
    decreases |s| - i
  {
    if i == |s| then None
    else if s[i] == '{' then CloseOf(s, i + 1, depth + 1)
    else if s[i] != '}' then CloseOf(s, i + 1, depth)
    else if depth == 1 then Some(i)
    else CloseOf(s, i + 1, depth - 1)
  }

  method FindClose(s: string) returns (index: int)
    ensures index == match CloseOf(s, 0, 1) case None => -1 case Some(c) => c
  {
    var depth := 1;
    var i := 0;
    while i < |s|
      invariant 0 <= i <= |s| && depth > 0
      invariant CloseOf(s, i, depth) == CloseOf(s, 0, 1)
    {
      if s[i] == '{' {
        depth := depth + 1;
      } else if s[i] == '}' {
        depth := depth - 1;
        if depth == 0 { return i; }
      }
      i := i + 1;
    }
    return -1;
  }

  // ---------------------------------------------------------------- wrapping

  /** One paragraph: the whole text in one argument, except that a leading sectioning command keeps
      its header and closing brace outside. `s` ends where the marked range ends. */
  function WrapOneParagraph(s: string, k: Kind, lo: nat, hi: nat): seq<Piece>
    requires lo <= hi <= |s|
  {
    var inner := s[..hi];
    var h := CommandEnd(inner, lo, SECTIONING);
    var c := if h.Some? then CloseOf(inner, h.value, 1) else None;
    if c.Some? then
      [Keep(lo, h.value), Arg(k, h.value, c.value)]
      + if hi - c.value > 1 then [Keep(c.value, c.value + 1), Arg(k, c.value + 1, hi)] else [Keep(c.value, hi)]
    else [Arg(k, lo, hi)]
  }

  predicate Blank(s: string) { forall i :: 0 <= i < |s| ==> IsSpace(s[i]) }

  function WrapPiece(s: string, k: Kind, p: Part): seq<Piece>
    requires p.lo <= p.hi <= |s|
  {
    if p.Break? || Blank(s[p.lo..p.hi]) then [Keep(p.lo, p.hi)] else WrapOneParagraph(s, k, p.lo, p.hi)
  }

  function WrapParts(s: string, k: Kind, parts: seq<Part>): seq<Piece>
    requires forall p :: p in parts ==> p.lo <= p.hi <= |s|
  {
    if parts == [] then []
    else WrapPiece(s, k, parts[0]) + WrapParts(s, k, parts[1..])
  }

  /** The marked stretch `lo..hi` of the content. */
  function WrapInner(content: string, k: Kind, lo: nat, hi: nat): seq<Piece>
    requires lo <= hi <= |content|
  {
    var s := content[..hi];
    var parts := Parts(s, lo, lo);
    PartsTileText(s, lo, lo);
    PartBounds(parts, lo, |s|);
    if |parts| == 1 then WrapOneParagraph(s, k, lo, hi) else WrapParts(s, k, parts)
  }

  /** One turn of the loop over sorted ranges: an overlapping range is skipped. */
  function WrapStep(content: string, r: Range, cursor: real): seq<Piece>
    requires 0.0 <= cursor <= |content| as real && 0.0 <= r.from < r.to <= |content| as real
  {
    if r.from < cursor then []
    else (if r.from > cursor then [Keep(cursor.Floor, Lo(r))] else []) + WrapInner(content, r.kind, Lo(r), Hi(r))
  }

  function NextCursor(r: Range, cursor: real): real { if r.from < cursor then cursor else r.to }

  function WrapFrom(content: string, rs: seq<Range>, cursor: real): (ps: seq<Piece>)
    requires 0.0 <= cursor <= |content| as real && forall r :: r in rs ==> 0.0 <= r.from < r.to <= |content| as real
  {
    if rs == [] then (if cursor < |content| as real then [Keep(cursor.Floor, |content|)] else [])
    else
      assert rs[0] in rs;
      WrapStep(content, rs[0], cursor) + WrapFrom(content, rs[1..], NextCursor(rs[0], cursor))
  }

  function Wrapped(content: string, tcMarks: seq<Mark>): seq<Piece> {
    WrapFrom(content, Sort(Ranges(tcMarks, {Ins, Del}, |content|)), 0.0)
  }

  // ---------------------------------------------------------------- parts

  predicate PartsTile(parts: seq<Part>, lo: nat, hi: nat) {
    if parts == [] then lo == hi
    else parts[0].lo == lo && lo <= parts[0].hi && PartsTile(parts[1..], parts[0].hi, hi)
  }

  lemma {:induction false} PartBounds(parts: seq<Part>, lo: nat, hi: nat)
    requires PartsTile(parts, lo, hi)
    ensures lo <= hi && forall p :: p in parts ==> lo <= p.lo <= p.hi <= hi
  {
    if parts != [] { PartBounds(parts[1..], parts[0].hi, hi); }
  }

  lemma {:induction false} PartsTileText(s: string, start: nat, i: nat)
    requires start <= i <= |s|
    ensures PartsTile(Parts(s, start, i), start, |s|)
    decreases |s| - i
  {
    if i < |s| {
      var e := BreakEnd(s, i);
      if e == i {
        PartsTileText(s, start, i + 1);
      } else {
        PartsTileText(s, e, e);
        var rest := Parts(s, e, e);
        assert ([Text(start, i), Break(i, e)] + rest)[1..] == [Break(i, e)] + rest;
        assert ([Break(i, e)] + rest)[1..] == rest;
      }
    }
  }

  /** A text part holds no break and does not end in front of a letter. */
  ghost predicate CleanStretch(s: string, lo: nat, hi: nat)
    requires hi <= |s|
  {
    NoBreakIn(s, lo, hi) && (hi == |s| || !IsWord(s[hi]))
  }

  lemma {:induction false} PartsAreClean(s: string, start: nat, i: nat)
    requires start <= i <= |s| && NoBreakIn(s, start, i)
    ensures forall p :: p in Parts(s, start, i) ==> p.hi <= |s| && (p.Text? ==> CleanStretch(s, p.lo, p.hi))
    ensures forall p :: p in Parts(s, start, i) && p.Break? ==> p.lo < p.hi && BreakEnd(s, p.lo) == p.hi
    decreases |s| - i
  {
    if i < |s| {
      var e := BreakEnd(s, i);
      if e == i { PartsAreClean(s, start, i + 1); } else { PartsAreClean(s, e, e); }
    }
  }

  lemma {:induction false} SkipBlankInside(s: string, a: nat, b: nat, i: nat)
    requires a <= b <= |s| && i <= b - a
    ensures var j := SkipBlank(s[a..b], i); j < b - a ==> SkipBlank(s, a + i) == a + j
    decreases b - a - i
  {
    if i < b - a { SkipBlankInside(s, a, b, i + 1); }
  }

  /** A clean stretch stays free of paragraph breaks when it is cut out. */
  lemma CleanStretchIsBreakFree(s: string, a: nat, b: nat)
    requires a <= b <= |s| && CleanStretch(s, a, b)
    ensures BreakFree(s[a..b])
  {
    var t := s[a..b];
    forall i | 0 <= i < |t| ensures BreakEnd(t, i) == i {
      assert BreakEnd(s, a + i) == a + i;
      if t[i] == '\n' {
        SkipBlankInside(s, a, b, i + 1);
      } else if StartsAt(t, i, "\\par") {
        StartsInside(s, a, b, i, "\\par");
      }
    }
  }

  lemma StartsInside(s: string, a: nat, b: nat, i: nat, prefix: string)
    requires a <= b <= |s| && StartsAt(s[a..b], i, prefix)
    ensures StartsAt(s, a + i, prefix)
  {
    var t := s[a..b];
    forall x | 0 <= x < |prefix| ensures s[a + i..a + i + |prefix|][x] == prefix[x] {
      assert t[i..i + |prefix|][x] == s[a + i + x];
    }
  }

  // ---------------------------------------------------------------- erasing the markup

  lemma WrapOneParagraphTiles(s: string, k: Kind, lo: nat, hi: nat)
    requires lo <= hi <= |s|
    ensures Tiles(WrapOneParagraph(s, k, lo, hi), lo, hi)
  {
    var inner := s[..hi];
    var h := CommandEnd(inner, lo, SECTIONING);
    var c := if h.Some? then CloseOf(inner, h.value, 1) else None;
    if c.Some? {
      var front := [Keep(lo, h.value), Arg(k, h.value, c.value)];
      var back :=
        if hi - c.value > 1 then [Keep(c.value, c.value + 1), Arg(k, c.value + 1, hi)] else [Keep(c.value, hi)];
      assert Tiles(front[1..][1..], c.value, c.value) && Tiles(front[1..], h.value, c.value);
      assert Tiles(back[1..], back[0].hi, hi);
      TilesAppend(front, back, lo, c.value, hi);
    }
  }

  lemma {:induction false} WrapPartsTiles(s: string, k: Kind, parts: seq<Part>, lo: nat, hi: nat)
    requires PartsTile(parts, lo, hi) && hi <= |s| && forall p :: p in parts ==> p.lo <= p.hi <= |s|
    ensures Tiles(WrapParts(s, k, parts), lo, hi)
  {
    if parts != [] {
      var p := parts[0];
      WrapOneParagraphTiles(s, k, p.lo, p.hi);
      assert Tiles(WrapPiece(s, k, p), p.lo, p.hi);
      WrapPartsTiles(s, k, parts[1..], p.hi, hi);
      TilesAppend(WrapPiece(s, k, p), WrapParts(s, k, parts[1..]), lo, p.hi, hi);
    }
  }

  lemma WrapInnerTiles(content: string, k: Kind, lo: nat, hi: nat)
    requires lo <= hi <= |content|
    ensures Tiles(WrapInner(content, k, lo, hi), lo, hi)
  {
    var s := content[..hi];
    var parts := Parts(s, lo, lo);
    PartsTileText(s, lo, lo);
    PartBounds(parts, lo, |s|);
    WrapOneParagraphTiles(s, k, lo, hi);
    WrapPartsTiles(s, k, parts, lo, hi);
  }

  lemma WrapStepTiles(content: string, r: Range, cursor: real)
    requires 0.0 <= cursor <= |content| as real && 0.0 <= r.from < r.to <= |content| as real
    ensures Tiles(WrapStep(content, r, cursor), cursor.Floor, NextCursor(r, cursor).Floor)
  {
    if r.from >= cursor {
      WrapInnerTiles(content, r.kind, Lo(r), Hi(r));
      if r.from > cursor {
        var gap := [Keep(cursor.Floor, Lo(r))];
        assert Tiles(gap[1..], Lo(r), Lo(r));
        TilesAppend(gap, WrapInner(content, r.kind, Lo(r), Hi(r)), cursor.Floor, Lo(r), Hi(r));
      } else {
        TilesAppend([], WrapInner(content, r.kind, Lo(r), Hi(r)), cursor.Floor, Lo(r), Hi(r));
      }
    }
  }

  lemma {:induction false} WrapFromTiles(content: string, rs: seq<Range>, cursor: real)
    requires 0.0 <= cursor <= |content| as real && forall r :: r in rs ==> 0.0 <= r.from < r.to <= |content| as real
    ensures Tiles(WrapFrom(content, rs, cursor), cursor.Floor, |content|)
  {
    var n := |content|;
    if rs == [] {
      assert cursor < n as real ==> Tiles([Keep(cursor.Floor, n)][1..], n, n);
    } else {
      var next := NextCursor(rs[0], cursor);
      assert rs[0] in rs;
      WrapStepTiles(content, rs[0], cursor);
      WrapFromTiles(content, rs[1..], next);
      TilesAppend(WrapStep(content, rs[0], cursor), WrapFrom(content, rs[1..], next), cursor.Floor, next.Floor, n);
    }
  }

  /** Erasing the inserted markup gives back the content, character for character. */
  lemma WrappedTiles(content: string, tcMarks: seq<Mark>)
    ensures var ps := Wrapped(content, tcMarks);
            && Tiles(ps, 0, |content|) && (forall p :: p in ps ==> p.lo <= p.hi <= |content|)
            && Source(content, ps) == content
  {
    var ps := Wrapped(content, tcMarks);
    WrapFromTiles(content, Sort(Ranges(tcMarks, {Ins, Del}, |content|)), 0.0);
    TilesBounds(ps, 0, |content|);
    SourceOfTiles(content, ps, 0, |content|);
    assert content[0..|content|] == content;
  }

  // ---------------------------------------------------------------- the transform itself

  /** One turn of the loop, as text: the gap since the cursor, then the wrapped range. */
  function StepText(content: string, r: Range, cursor: real): string
    requires 0.0 <= cursor <= |content| as real && 0.0 <= r.from < r.to <= |content| as real
  {
    if r.from < cursor then ""
    else
      WrapInnerBounds(content, r.kind, Lo(r), Hi(r));
      (if r.from > cursor then content[cursor.Floor..Lo(r)] else "")
      + Render(content, WrapInner(content, r.kind, Lo(r), Hi(r)))
  }

  lemma WrapInnerBounds(content: string, k: Kind, lo: nat, hi: nat)
    requires lo <= hi <= |content|
    ensures forall p :: p in WrapInner(content, k, lo, hi) ==> p.lo <= p.hi <= |content|
  {
    WrapInnerTiles(content, k, lo, hi);
    TilesBounds(WrapInner(content, k, lo, hi), lo, hi);
  }

  lemma WrapFromBounds(content: string, rs: seq<Range>, cursor: real)
    requires 0.0 <= cursor <= |content| as real && forall r :: r in rs ==> 0.0 <= r.from < r.to <= |content| as real
    ensures forall p :: p in WrapFrom(content, rs, cursor) ==> p.lo <= p.hi <= |content|
  {
    WrapFromTiles(content, rs, cursor);
    TilesBounds(WrapFrom(content, rs, cursor), cursor.Floor, |content|);
  }

  function Rendered(content: string, rs: seq<Range>, cursor: real): string
    requires 0.0 <= cursor <= |content| as real && forall r :: r in rs ==> 0.0 <= r.from < r.to <= |content| as real
  {
    WrapFromBounds(content, rs, cursor);
    Render(content, WrapFrom(content, rs, cursor))
  }

  lemma RenderStep(content: string, r: Range, cursor: real)
    requires 0.0 <= cursor <= |content| as real && 0.0 <= r.from < r.to <= |content| as real
    ensures forall p :: p in WrapStep(content, r, cursor) ==> p.lo <= p.hi <= |content|
    ensures Render(content, WrapStep(content, r, cursor)) == StepText(content, r, cursor)
  {
    var inner := WrapInner(content, r.kind, Lo(r), Hi(r));
    WrapInnerBounds(content, r.kind, Lo(r), Hi(r));
    if r.from > cursor {
      var gap := [Keep(cursor.Floor, Lo(r))];
      RenderAppend(content, gap, inner);
      assert Render(content, gap) == Show(content, gap[0]) + Render(content, gap[1..]);
    } else if r.from == cursor {
      assert WrapStep(content, r, cursor) == inner;
    }
  }

  lemma RenderedCons(content: string, rs: seq<Range>, cursor: real)
    requires 0.0 <= cursor <= |content| as real && forall r :: r in rs ==> 0.0 <= r.from < r.to <= |content| as real
    requires rs != []
    ensures rs[0] in rs
    ensures Rendered(content, rs, cursor)
         == StepText(content, rs[0], cursor) + Rendered(content, rs[1..], NextCursor(rs[0], cursor))
  {
    assert rs[0] in rs;
    RenderStep(content, rs[0], cursor);
    WrapFromBounds(content, rs[1..], NextCursor(rs[0], cursor));
    RenderAppend(content, WrapStep(content, rs[0], cursor), WrapFrom(content, rs[1..], NextCursor(rs[0], cursor)));
  }

  method WrapPendingChangesAsMacros(content: string, tcMarks: seq<Mark>) returns (out: string)
    ensures forall p :: p in Wrapped(content, tcMarks) ==> p.lo <= p.hi <= |content|
    ensures out == Render(content, Wrapped(content, tcMarks))
    ensures forall lo: nat, hi: nat :: OnlyMark(content, tcMarks, Ins, lo, hi) ==>
              out == content[..lo] + ("\\TCadd{" + content[lo..hi] + "}") + content[hi..]
    ensures forall lo: nat, hi: nat :: OnlyMark(content, tcMarks, Del, lo, hi) ==>
              out == content[..lo] + ("\\TCdel{" + content[lo..hi] + "}") + content[hi..]
  {
    forall k, lo: nat, hi: nat | OnlyMark(content, tcMarks, k, lo, hi) {
      OneMarkIsPrinted(content, k, lo, hi, Wrapped(content, tcMarks));
    }
    var sorted := Sort(Ranges(tcMarks, {Ins, Del}, |content|));
    WrapFromBounds(content, sorted, 0.0);
    if |sorted| == 0 {
      assert content[0..|content|] == content;
      return content;
    }
    out := WrapRanges(content, sorted);
  }

  method WrapRanges(content: string, sorted: seq<Range>) returns (out: string)
    requires forall r :: r in sorted ==> 0.0 <= r.from < r.to <= |content| as real
    ensures out == Rendered(content, sorted, 0.0)
  {
    out := "";
    var cursor := 0.0;
    for i := 0 to |sorted|
      invariant 0.0 <= cursor <= |content| as real
      invariant Rendered(content, sorted, 0.0) == out + Rendered(content, sorted[i..], cursor)
    {
      var m := sorted[i];
      RenderedCons(content, sorted[i..], cursor);
      assert sorted[i..][1..] == sorted[i + 1..];
      ConcatAssociates(out, StepText(content, m, cursor), Rendered(content, sorted[i + 1..], NextCursor(m, cursor)));
      if m.from < cursor { continue; }
      WrapInnerBounds(content, m.kind, Lo(m), Hi(m));
      var gap := if m.from > cursor then content[cursor.Floor..Lo(m)] else "";
      var inner := Render(content, WrapInner(content, m.kind, Lo(m), Hi(m)));
      ConcatAssociates(out, gap, inner);
      out := out + gap;
      out := out + inner;
      cursor := m.to;
    }
    assert sorted[|sorted|..] == [];
    RenderedEnd(content, cursor);
    if cursor < |content| as real { out := out + content[cursor.Floor..]; }
  }

  lemma RenderedEnd(content: string, cursor: real)
    requires 0.0 <= cursor <= |content| as real
    ensures Rendered(content, [], cursor) == if cursor < |content| as real then content[cursor.Floor..] else ""
  {
    if cursor < |content| as real {
      var ps := WrapFrom(content, [], cursor);
      assert Render(content, ps) == Show(content, ps[0]) + Render(content, ps[1..]);
    }
  }

  // ---------------------------------------------------------------- what an argument contains

  /** `p` wraps a break-free stretch of the range `r`. */
  ghost predicate ArgOf(content: string, p: Piece, r: Range) {
    p.Arg? && p.kind == r.kind && Lo(r) <= p.lo <= p.hi <= Hi(r) && p.hi <= |content| && BreakFree(content[p.lo..p.hi])
  }

  /** A part of a clean stretch that ends with it, or at a closing brace, is break-free. */
  lemma PartOfCleanStretch(s: string, lo: nat, hi: nat, a: nat, b: nat)
    requires lo <= a <= b <= hi <= |s| && CleanStretch(s, lo, hi) && (b == hi || s[b] == '}')
    ensures BreakFree(s[a..b])
  {
    CleanStretchIsBreakFree(s, a, b);
  }

  ghost predicate GoodArgs(s: string, k: Kind, lo: nat, hi: nat, ps: seq<Piece>) {
    forall p :: p in ps && p.Arg? ==> p.kind == k && lo <= p.lo <= p.hi <= hi <= |s| && BreakFree(s[p.lo..p.hi])
  }

  lemma GoodArgsConcat(s: string, k: Kind, lo: nat, hi: nat, a: seq<Piece>, b: seq<Piece>)
    requires GoodArgs(s, k, lo, hi, a) && GoodArgs(s, k, lo, hi, b)
    ensures GoodArgs(s, k, lo, hi, a + b)
  {
  }

  lemma WrapOneParagraphArgs(s: string, k: Kind, lo: nat, hi: nat)
    requires lo <= hi <= |s| && CleanStretch(s, lo, hi)
    ensures GoodArgs(s, k, lo, hi, WrapOneParagraph(s, k, lo, hi))
  {
    var inner := s[..hi];
    var h := CommandEnd(inner, lo, SECTIONING);
    var c := if h.Some? then CloseOf(inner, h.value, 1) else None;
    if c.Some? {
      SectionArgs(s, k, lo, hi, h.value, c.value);
    } else {
      WholeArg(s, k, lo, hi);
    }
  }

  lemma WholeArg(s: string, k: Kind, lo: nat, hi: nat)
    requires lo <= hi <= |s| && CleanStretch(s, lo, hi)
    ensures GoodArgs(s, k, lo, hi, [Arg(k, lo, hi)])
  {
    PartOfCleanStretch(s, lo, hi, lo, hi);
  }

  lemma SectionArgs(s: string, k: Kind, lo: nat, hi: nat, h: nat, c: nat)
    requires lo <= h <= c < hi <= |s| && CleanStretch(s, lo, hi) && s[..hi][c] == '}'
    ensures GoodArgs(s, k, lo, hi, [Keep(lo, h), Arg(k, h, c)] +
                                   if hi - c > 1 then [Keep(c, c + 1), Arg(k, c + 1, hi)] else [Keep(c, hi)])
  {
    PartOfCleanStretch(s, lo, hi, h, c);
    PartOfCleanStretch(s, lo, hi, c + 1, hi);
    GoodArgsConcat(s, k, lo, hi, [Keep(lo, h), Arg(k, h, c)],
                   if hi - c > 1 then [Keep(c, c + 1), Arg(k, c + 1, hi)] else [Keep(c, hi)]);
  }

  lemma {:induction false} WrapPartsArgs(s: string, k: Kind, parts: seq<Part>)
    requires forall p :: p in parts ==> p.lo <= p.hi <= |s| && (p.Text? ==> CleanStretch(s, p.lo, p.hi))
    ensures forall p :: p in WrapParts(s, k, parts) && p.Arg? ==>
              p.kind == k && p.lo <= p.hi <= |s| && BreakFree(s[p.lo..p.hi])
  {
    if parts != [] {
      var p := parts[0];
      if p.Text? { WrapOneParagraphArgs(s, k, p.lo, p.hi); }
      WrapPartsArgs(s, k, parts[1..]);
    }
  }

  lemma WrapInnerArgs(content: string, r: Range)
    requires 0.0 <= r.from < r.to <= |content| as real
    ensures forall p :: p in WrapInner(content, r.kind, Lo(r), Hi(r)) && p.Arg? ==> ArgOf(content, p, r)
  {
    var s, ps := content[..Hi(r)], WrapInner(content, r.kind, Lo(r), Hi(r));
    var parts := Parts(s, Lo(r), Lo(r));
    PartsTileText(s, Lo(r), Lo(r));
    PartBounds(parts, Lo(r), |s|);
    PartsAreClean(s, Lo(r), Lo(r));
    WrapPartsArgs(s, r.kind, parts);
    if |parts| == 1 {
      SinglePart(s, Lo(r), Lo(r));
      WrapOneParagraphArgs(s, r.kind, Lo(r), Hi(r));
    }
    WrapInnerTiles(content, r.kind, Lo(r), Hi(r));
    TilesBounds(ps, Lo(r), Hi(r));
    forall p | p in ps && p.Arg? ensures ArgOf(content, p, r) {
      assert s[p.lo..p.hi] == content[p.lo..p.hi];
    }
  }

  /** A single part means that there was no break. */
  lemma {:induction false} SinglePart(s: string, start: nat, i: nat)
    requires start <= i <= |s| && NoBreakIn(s, start, i) && |Parts(s, start, i)| == 1
    ensures NoBreakIn(s, start, |s|)
    decreases |s| - i
  {
    if i < |s| && BreakEnd(s, i) == i { SinglePart(s, start, i + 1); }
  }

  lemma {:induction false} WrapFromArgs(content: string, rs: seq<Range>, cursor: real)
    requires 0.0 <= cursor <= |content| as real && forall r :: r in rs ==> 0.0 <= r.from < r.to <= |content| as real
    ensures forall p :: p in WrapFrom(content, rs, cursor) && p.Arg? ==> exists r :: r in rs && ArgOf(content, p, r)
  {
    if rs != [] {
      var r := rs[0];
      assert r in rs;
      WrapFromArgs(content, rs[1..], NextCursor(r, cursor));
      WrapInnerArgs(content, r);
      forall p | p in WrapFrom(content, rs, cursor) && p.Arg?
        ensures exists q :: q in rs && ArgOf(content, p, q)
      {
        if p in WrapStep(content, r, cursor) {
          assert ArgOf(content, p, r);
        } else {
          var q :| q in rs[1..] && ArgOf(content, p, q);
          assert q in rs;
        }
      }
    }
  }

  /** A break-free stretch of the content inside a valid mark of the argument's kind. */
  ghost predicate ProperArg(content: string, tcMarks: seq<Mark>, p: Piece) {
    && p.Arg? && p.lo <= p.hi <= |content| && BreakFree(content[p.lo..p.hi])
    && exists m :: m in tcMarks && Spans(m, p.kind, p.lo, p.hi)
  }

  lemma RangeIsSpanned(m: Mark, n: nat, lo: nat, hi: nat)
    requires Proper(m) && var r := RangeOf(m, n); r.from < r.to && Lo(r) <= lo <= hi <= Hi(r)
    ensures Spans(m, m.kind.value, lo, hi)
  {
  }

  /** No inserted argument contains a paragraph break, and each is the text of a valid mark of its kind. */
  lemma ArgumentsAreBreakFree(content: string, tcMarks: seq<Mark>)
    ensures forall p :: p in Wrapped(content, tcMarks) && p.Arg? ==> ProperArg(content, tcMarks, p)
  {
    var rs := Ranges(tcMarks, {Ins, Del}, |content|);
    WrapFromArgs(content, Sort(rs), 0.0);
    forall p | p in Wrapped(content, tcMarks) && p.Arg? ensures ProperArg(content, tcMarks, p) {
      var r :| r in Sort(rs) && ArgOf(content, p, r);
      var m :| m in tcMarks && Proper(m) && RangeOf(m, |content|) == r;
      RangeIsSpanned(m, |content|, p.lo, p.hi);
    }
  }

  /** Every source character inside a `\TCdel` argument is one that stripping removes. */
  lemma DeletedArgumentsAreStripped(content: string, tcMarks: seq<Mark>)
    ensures forall p, k: nat :: p in Wrapped(content, tcMarks) && p.Arg? && p.kind == Del && p.lo <= k < p.hi ==>
              Deleted(tcMarks, k)
  {
    ArgumentsAreBreakFree(content, tcMarks);
    forall p, k: nat | p in Wrapped(content, tcMarks) && p.Arg? && p.kind == Del && p.lo <= k < p.hi
      ensures Deleted(tcMarks, k)
    {
      assert ProperArg(content, tcMarks, p);
      var m :| m in tcMarks && Spans(m, Del, p.lo, p.hi);
      assert Deletes(m, k);
    }
  }

  // ---------------------------------------------------------------- nothing marked is left unwrapped

  /** Each break and each blank text is kept, each other text is wrapped as a paragraph of its own. */
  lemma {:induction false} PartsAreWrapped(s: string, k: Kind, parts: seq<Part>, p: Part)
    requires p in parts && forall q :: q in parts ==> q.lo <= q.hi <= |s|
    ensures p.Break? || SpaceIn(s, p.lo, p.hi) ==> Keep(p.lo, p.hi) in WrapParts(s, k, parts)
    ensures p.Text? && !SpaceIn(s, p.lo, p.hi) ==>
              forall q :: q in WrapOneParagraph(s, k, p.lo, p.hi) ==> q in WrapParts(s, k, parts)
  {
    if p == parts[0] {
      BlankIff(s, p.lo, p.hi);
    } else {
      PartsAreWrapped(s, k, parts[1..], p);
    }
  }

  lemma BlankIff(s: string, lo: nat, hi: nat)
    requires lo <= hi <= |s|
    ensures Blank(s[lo..hi]) <==> SpaceIn(s, lo, hi)
  {
    if Blank(s[lo..hi]) {
      forall x | lo <= x < hi ensures IsSpace(s[x]) { assert s[x] == s[lo..hi][x - lo]; }
    }
  }

  /** A range is wrapped unless an earlier one in the order of the loop reaches into it. */
  lemma {:induction false} FreeRangeIsWrapped(content: string, rs: seq<Range>, cursor: real, i: nat)
    requires 0.0 <= cursor <= |content| as real && forall r :: r in rs ==> 0.0 <= r.from < r.to <= |content| as real
    requires i < |rs| && cursor <= rs[i].from && forall j :: 0 <= j < i ==> rs[j].to <= rs[i].from
    ensures forall p :: p in WrapInner(content, rs[i].kind, Lo(rs[i]), Hi(rs[i])) ==> p in WrapFrom(content, rs, cursor)
  {
    assert rs[0] in rs;
    if i > 0 { FreeRangeIsWrapped(content, rs[1..], NextCursor(rs[0], cursor), i - 1); }
  }

  /** The mark has whole ends, and every other mark ends before it or starts behind it. */
  ghost predicate Alone(tcMarks: seq<Mark>, k: Kind, lo: nat, hi: nat) {
    var m := Mark(Some(k), Finite(lo as real), Finite(hi as real));
    && m in tcMarks
    && forall o :: o in tcMarks && o != m && o.Mark? && o.kind.Some? && o.from.Finite? && o.to.Finite? ==>
         o.to.at <= lo as real || hi as real <= o.from.at
  }

  /** The text has no paragraph break and does not start with a sectioning command. */
  ghost predicate PlainStretch(content: string, lo: nat, hi: nat)
    requires lo <= hi <= |content|
  {
    BreakFree(content[lo..hi]) && CommandEnd(content[..hi], lo, SECTIONING).None?
  }

  /** The only mark is one over a plain text. */
  ghost predicate OnlyMark(content: string, tcMarks: seq<Mark>, k: Kind, lo: nat, hi: nat) {
    && lo < hi <= |content| && PlainStretch(content, lo, hi)
    && tcMarks == [Mark(Some(k), Finite(lo as real), Finite(hi as real))]
  }

  /** A text without line feeds and backslashes is plain. */
  lemma TextIsPlain(content: string, lo: nat, hi: nat)
    requires lo <= hi <= |content| && '\n' !in content[lo..hi] && '\\' !in content[lo..hi]
    ensures PlainStretch(content, lo, hi)
  {
    var t, a := content[lo..hi], SkipSpace(content[..hi], lo);
    if a < hi { assert content[a] == t[a - lo]; }
  }

  /** Its range is the same, and no range that comes before it in the loop reaches into it. */
  lemma AloneIsFree(tcMarks: seq<Mark>, k: Kind, lo: nat, hi: nat, n: nat) returns (i: nat)
    requires lo < hi <= n && Alone(tcMarks, k, lo, hi)
    ensures var rs, r := Sort(Ranges(tcMarks, {Ins, Del}, n)), Range(k, lo as real, hi as real);
            i < |rs| && rs[i] == r && forall j :: 0 <= j < i ==> rs[j].to <= r.from
  {
    var r := Range(k, lo as real, hi as real);
    var ranges := Ranges(tcMarks, {Ins, Del}, n);
    var rs := Sort(ranges);
    AloneIsARange(tcMarks, k, lo, hi, n);
    i := FirstPlace(rs, r);
    forall j | 0 <= j < i ensures rs[j].to <= r.from {
      assert rs[j] in ranges && rs[j].from <= r.from;
      OthersAreApart(tcMarks, k, lo, hi, n, rs[j]);
    }
  }

  lemma AloneIsARange(tcMarks: seq<Mark>, k: Kind, lo: nat, hi: nat, n: nat)
    requires lo < hi <= n && Alone(tcMarks, k, lo, hi)
    ensures Range(k, lo as real, hi as real) in Ranges(tcMarks, {Ins, Del}, n)
  {
    var m := Mark(Some(k), Finite(lo as real), Finite(hi as real));
    assert m in tcMarks && Proper(m) && RangeOf(m, n) == Range(k, lo as real, hi as real);
  }

  lemma OthersAreApart(tcMarks: seq<Mark>, k: Kind, lo: nat, hi: nat, n: nat, q: Range)
    requires lo < hi <= n && Alone(tcMarks, k, lo, hi)
    requires q in Ranges(tcMarks, {Ins, Del}, n) && q != Range(k, lo as real, hi as real)
    ensures q.to <= lo as real || hi as real <= q.from
  {
    var o :| o in tcMarks && Proper(o) && RangeOf(o, n) == q;
  }

  lemma {:induction false} FirstPlace(rs: seq<Range>, r: Range) returns (i: nat)
    requires r in rs
    ensures i < |rs| && rs[i] == r && forall j :: 0 <= j < i ==> rs[j] != r
  {
    if rs[0] == r {
      i := 0;
    } else {
      i := FirstPlace(rs[1..], r);
      i := i + 1;
    }
  }

  /** A plain marked text that no other mark overlaps becomes exactly one argument. */
  lemma PlainMarkIsOneArgument(content: string, tcMarks: seq<Mark>, k: Kind, lo: nat, hi: nat)
    requires lo < hi <= |content| && Alone(tcMarks, k, lo, hi) && PlainStretch(content, lo, hi)
    ensures Arg(k, lo, hi) in Wrapped(content, tcMarks)
  {
    var rs := Sort(Ranges(tcMarks, {Ins, Del}, |content|));
    var i := AloneIsFree(tcMarks, k, lo, hi, |content|);
    PlainRangeIsOneArgument(content, k, lo, hi);
    FreeRangeIsWrapped(content, rs, 0.0, i);
    assert Arg(k, lo, hi) in [Arg(k, lo, hi)];
  }

  lemma {:induction false} TilesSplit(ps: seq<Piece>, lo: nat, hi: nat, i: nat)
    requires Tiles(ps, lo, hi) && i < |ps|
    ensures Tiles(ps[..i], lo, ps[i].lo) && Tiles(ps[i + 1..], ps[i].hi, hi)
  {
    if i > 0 {
      TilesSplit(ps[1..], ps[0].hi, hi, i - 1);
      assert ps[..i][1..] == ps[1..][..i - 1] && ps[1..][i..] == ps[i + 1..];
    }
  }

  /** Such a mark is printed between what is printed for the text before it and behind it. */
  lemma LoneMarkIsPrinted(content: string, tcMarks: seq<Mark>, k: Kind, lo: nat, hi: nat, ps: seq<Piece>)
    returns (before: seq<Piece>, behind: seq<Piece>)
    requires lo < hi <= |content| && Alone(tcMarks, k, lo, hi) && PlainStretch(content, lo, hi)
    requires ps == Wrapped(content, tcMarks)
    ensures forall p :: p in ps || p in before || p in behind ==> p.lo <= p.hi <= |content|
    ensures Source(content, before) == content[..lo] && Source(content, behind) == content[hi..]
    ensures k == Ins ==> Render(content, ps)
                         == Render(content, before) + ("\\TCadd{" + content[lo..hi] + "}") + Render(content, behind)
    ensures k == Del ==> Render(content, ps)
                         == Render(content, before) + ("\\TCdel{" + content[lo..hi] + "}") + Render(content, behind)
  {
    PlainMarkIsOneArgument(content, tcMarks, k, lo, hi);
    WrappedTiles(content, tcMarks);
    before, behind := SplitAtPiece(content, ps, Arg(k, lo, hi));
    PiecesArePrinted(content, Arg(k, lo, hi));
  }

  lemma SplitAtPiece(s: string, ps: seq<Piece>, p: Piece) returns (before: seq<Piece>, behind: seq<Piece>)
    requires p in ps && Tiles(ps, 0, |s|) && forall q :: q in ps ==> q.lo <= q.hi <= |s|
    ensures forall q :: q in before || q in behind ==> q.lo <= q.hi <= |s|
    ensures Source(s, before) == s[..p.lo] && Source(s, behind) == s[p.hi..]
    ensures Render(s, ps) == Render(s, before) + Show(s, p) + Render(s, behind)
  {
    var i: nat :| i < |ps| && ps[i] == p;
    before, behind := ps[..i], ps[i + 1..];
    TilesSplit(ps, 0, |s|, i);
    SourceOfTiles(s, before, 0, p.lo);
    SourceOfTiles(s, behind, p.hi, |s|);
    assert s[0..p.lo] == s[..p.lo] && s[p.hi..|s|] == s[p.hi..] && ps == before + [p] + behind;
    RenderBetween(s, before, p, behind);
  }

  /** One mark over a plain text leaves everything around it as it is. */
  lemma OneMark(content: string, k: Kind, lo: nat, hi: nat)
    requires lo < hi <= |content| && PlainStretch(content, lo, hi)
    ensures Wrapped(content, [Mark(Some(k), Finite(lo as real), Finite(hi as real))])
         == (if lo > 0 then [Keep(0, lo)] else []) + [Arg(k, lo, hi)]
            + if hi < |content| then [Keep(hi, |content|)] else []
  {
    var n := |content|;
    var r := Range(k, lo as real, hi as real);
    OneRange(Mark(Some(k), Finite(lo as real), Finite(hi as real)), r, n);
    PlainRangeIsOneArgument(content, k, lo, hi);
    assert [r][1..] == [];
    assert WrapFrom(content, [r], 0.0) == WrapStep(content, r, 0.0) + WrapFrom(content, [], hi as real);
  }

  lemma OneRange(m: Mark, r: Range, n: nat)
    requires Proper(m) && RangeOf(m, n) == r && r.from < r.to
    ensures Sort(Ranges([m], {Ins, Del}, n)) == [r]
  {
    assert m.kind.value == Ins || m.kind.value == Del;
    RangesOfOne(m, {Ins, Del}, r, n);
    assert [r][..0] == [];
    assert Sort([r]) == Insert(r, Sort([])) == [r];
  }

  lemma RangesOfOne(m: Mark, kinds: set<Kind>, r: Range, n: nat)
    requires Proper(m) && m.kind.value in kinds && RangeOf(m, n) == r && r.from < r.to
    ensures Ranges([m], kinds, n) == [r]
  {
    var ms := [m];
    assert ms[1..] == [] && ms[0] == m;
    assert Ranges(ms, kinds, n) == [r] + Ranges(ms[1..], kinds, n);
  }

  /** An insertion is printed as the argument of `\TCadd`, a deletion as that of `\TCdel`. */
  lemma OneMarkIsPrinted(content: string, k: Kind, lo: nat, hi: nat, ps: seq<Piece>)
    requires lo < hi <= |content| && PlainStretch(content, lo, hi)
    requires ps == Wrapped(content, [Mark(Some(k), Finite(lo as real), Finite(hi as real))])
    ensures forall p :: p in ps ==> p.lo <= p.hi <= |content|
    ensures k == Ins ==> Render(content, ps) == content[..lo] + ("\\TCadd{" + content[lo..hi] + "}") + content[hi..]
    ensures k == Del ==> Render(content, ps) == content[..lo] + ("\\TCdel{" + content[lo..hi] + "}") + content[hi..]
  {
    OneMark(content, k, lo, hi);
    var before, behind := if lo > 0 then [Keep(0, lo)] else [], if hi < |content| then [Keep(hi, |content|)] else [];
    ShownBetween(content, before, Arg(k, lo, hi), behind, ps);
    PiecesArePrinted(content, Arg(k, lo, hi));
  }

  lemma ShownBetween(s: string, before: seq<Piece>, p: Piece, behind: seq<Piece>, ps: seq<Piece>)
    requires p.lo <= p.hi <= |s| && ps == before + [p] + behind
    requires before == if p.lo > 0 then [Keep(0, p.lo)] else []
    requires behind == if p.hi < |s| then [Keep(p.hi, |s|)] else []
    ensures forall q :: q in ps ==> q.lo <= q.hi <= |s|
    ensures Render(s, ps) == s[..p.lo] + Show(s, p) + s[p.hi..]
  {
    if p.lo > 0 { KeepIsPrinted(s, 0, p.lo); }
    if p.hi < |s| { KeepIsPrinted(s, p.hi, |s|); }
    assert Render(s, before) == s[..p.lo] && Render(s, behind) == s[p.hi..];
    RenderBetween(s, before, p, behind);
  }

  lemma RenderBetween(s: string, a: seq<Piece>, p: Piece, b: seq<Piece>)
    requires (forall q :: q in a ==> q.lo <= q.hi <= |s|) && (forall q :: q in b ==> q.lo <= q.hi <= |s|)
    requires p.lo <= p.hi <= |s|
    ensures Render(s, a + [p] + b) == Render(s, a) + Show(s, p) + Render(s, b)
  {
    RenderAppend(s, a, [p]);
    RenderAppend(s, a + [p], b);
    assert [p][1..] == [] && Render(s, [p]) == Show(s, p) + "" == Show(s, p);
  }

  lemma KeepIsPrinted(content: string, lo: nat, hi: nat)
    requires lo <= hi <= |content|
    ensures Render(content, [Keep(lo, hi)]) == content[lo..hi]
  {
    var ps := [Keep(lo, hi)];
    assert Render(content, ps) == Show(content, ps[0]) + Render(content, ps[1..]);
  }

  /** Every piece is printed as its own text, an argument between its macro and a brace. */
  lemma PiecesArePrinted(s: string, p: Piece)
    requires p.lo <= p.hi <= |s|
    ensures p.Keep? ==> Show(s, p) == s[p.lo..p.hi]
    ensures p.Arg? && p.kind == Ins ==> Show(s, p) == "\\TCadd{" + s[p.lo..p.hi] + "}"
    ensures p.Arg? && p.kind == Del ==> Show(s, p) == "\\TCdel{" + s[p.lo..p.hi] + "}"
  {
    assert "\\TCadd" + "{" == "\\TCadd{" && "\\TCdel" + "{" == "\\TCdel{";
  }

  lemma PlainRangeIsOneArgument(content: string, k: Kind, lo: nat, hi: nat)
    requires lo <= hi <= |content| && BreakFree(content[lo..hi]) && CommandEnd(content[..hi], lo, SECTIONING).None?
    ensures WrapInner(content, k, lo, hi) == [Arg(k, lo, hi)]
  {
    var s := content[..hi];
    assert s[lo..] == content[lo..hi] && s[..hi] == s;
    OnePart(s, lo, lo);
    assert |Parts(s, lo, lo)| == 1;
  }

  lemma {:induction false} BreakSuffix(s: string, a: nat, i: nat)
    requires a <= i <= |s|
    ensures SkipBlank(s[a..], i - a) == SkipBlank(s, i) - a
    decreases |s| - i
  {
    if i < |s| { BreakSuffix(s, a, i + 1); }
  }

  lemma StartsSuffix(s: string, a: nat, i: nat, prefix: string)
    requires a <= i && StartsAt(s, i, prefix)
    ensures a <= |s| && StartsAt(s[a..], i - a, prefix)
  {
    assert s[a..][i - a..i - a + |prefix|] == s[i..i + |prefix|];
  }

  /** A text whose rest is break-free is a single part. */
  lemma {:induction false} OnePart(s: string, start: nat, i: nat)
    requires start <= i <= |s| && BreakFree(s[start..])
    ensures Parts(s, start, i) == [Text(start, |s|)]
    decreases |s| - i
  {
    if i < |s| {
      var t := s[start..];
      assert BreakEnd(t, i - start) == i - start;
      if s[i] == '\n' {
        BreakSuffix(s, start, i + 1);
      } else if StartsAt(s, i, "\\par") {
        StartsSuffix(s, start, i, "\\par");
      }
      assert BreakEnd(s, i) == i;
      OnePart(s, start, i + 1);
    }
  }

  // ---------------------------------------------------------------- braces

  /** The brace depth after reading `s` from depth `d`, unless it drops below zero on the way. */
  function Scan(s: string, d: int): Option<int> {
    if s == "" then Some(d)
    else
      var e := if s[0] == '{' then d + 1 else if s[0] == '}' then d - 1 else d;
      if e < 0 then None else Scan(s[1..], e)
  }

  predicate Balanced(s: string) { Scan(s, 0) == Some(0) }

  lemma {:induction false} ScanAppend(a: string, b: string, d: int)
    ensures Scan(a + b, d) == match Scan(a, d) case None => None case Some(e) => Scan(b, e)
  {
    if a == "" {
      assert a + b == b;
    } else {
      assert (a + b)[1..] == a[1..] + b;
      ScanAppend(a[1..], b, if a[0] == '{' then d + 1 else if a[0] == '}' then d - 1 else d);
    }
  }

  lemma {:induction false} ScanDeeper(s: string, d: int)
    requires Scan(s, d).Some?
    ensures Scan(s, d + 1) == Some(Scan(s, d).value + 1)
  {
    if s != "" { ScanDeeper(s[1..], if s[0] == '{' then d + 1 else if s[0] == '}' then d - 1 else d); }
  }

  lemma {:induction false} ScanWithoutBraces(s: string, d: nat)
    requires '{' !in s && '}' !in s
    ensures Scan(s, d) == Some(d)
  {
    if s != "" { ScanWithoutBraces(s[1..], d); }
  }

  /** An inserted macro adds one level around its argument and nothing behind it. */
  lemma ShowScans(s: string, p: Piece, d: nat)
    requires p.lo <= p.hi <= |s| && Scan(s[p.lo..p.hi], d).Some?
    ensures Scan(Show(s, p), d) == Scan(s[p.lo..p.hi], d)
  {
    if p.Arg? {
      var x := s[p.lo..p.hi];
      ScanWithoutBraces(Macro(p.kind), d);
      ScanAppend(Macro(p.kind), "{", d);
      assert Scan("{", d) == Some(d + 1);
      ScanAppend(Macro(p.kind) + "{", x, d);
      ScanDeeper(x, d);
      ScanAppend(Macro(p.kind) + "{" + x, "}", d);
      ScanStays(x, d);
    }
  }

  lemma {:induction false} ScanStays(s: string, d: nat)
    requires Scan(s, d).Some?
    ensures Scan(s, d).value >= 0
  {
    if s != "" { ScanStays(s[1..], if s[0] == '{' then d + 1 else if s[0] == '}' then d - 1 else d); }
  }

  lemma {:induction false} RenderScans(s: string, ps: seq<Piece>, d: nat)
    requires forall p :: p in ps ==> p.lo <= p.hi <= |s|
    requires Scan(Source(s, ps), d).Some?
    ensures Scan(Render(s, ps), d) == Scan(Source(s, ps), d)
  {
    if ps != [] {
      var x := s[ps[0].lo..ps[0].hi];
      ScanAppend(x, Source(s, ps[1..]), d);
      ScanAppend(Show(s, ps[0]), Render(s, ps[1..]), d);
      ShowScans(s, ps[0], d);
      ScanStays(x, d);
      RenderScans(s, ps[1..], Scan(x, d).value);
    }
  }

  /** Balanced content stays balanced. */
  lemma WrappingKeepsBalance(content: string, tcMarks: seq<Mark>)
    requires Balanced(content)
    ensures (forall p :: p in Wrapped(content, tcMarks) ==> p.lo <= p.hi <= |content|)
            && Balanced(Render(content, Wrapped(content, tcMarks)))
  {
    WrappedTiles(content, tcMarks);
    RenderScans(content, Wrapped(content, tcMarks), 0);
  }

  lemma WholeTextIsOneArgument(content: string, k: Kind)
    requires content != "" && BreakFree(content) && CommandEnd(content, 0, SECTIONING).None?
    ensures Wrapped(content, [Mark(Some(k), Finite(0.0), Finite(|content| as real))]) == [Arg(k, 0, |content|)]
  {
    assert content[..|content|] == content && content[0..|content|] == content;
    OneMark(content, k, 0, |content|);
  }

  /** The converse fails: marked as inserted as a whole, this unbalanced text renders to a balanced one. */
  lemma BalanceIsNotReflected()
    ensures var marks := [Mark(Some(Ins), Finite(0.0), Finite(2.0))];
            !Balanced("}{") && Wrapped("}{", marks) == [Arg(Ins, 0, 2)] && Balanced(Render("}{", Wrapped("}{", marks)))
  {
    var text := "}{";
    assert SkipSpace(text, 0) == 0 && BreakFree(text);
    WholeTextIsOneArgument(text, Ins);
    ArgumentOfDipIsBalanced(text);
  }

  lemma ArgumentOfDipIsBalanced(text: string)
    requires text == "}{"
    ensures !Balanced(text) && Balanced(Render(text, [Arg(Ins, 0, 2)]))
  {
    var ps := [Arg(Ins, 0, 2)];
    assert ps[1..] == [] && text[0..2] == text;
    assert Render(text, ps) == "\\TCadd{" + "}{" + "}" + "";
    ScanWithoutBraces("\\TCadd", 0);
    ScanAppend("\\TCadd", "{}{}", 0);
    assert "{}{}"[1..] == "}{}" && "}{}"[1..] == "{}" && "{}"[1..] == "}" && "}"[1..] == "";
    assert Render(text, ps) == "\\TCadd" + "{}{}";
  }

  /** `findClose` finds `c` exactly when `c` is a closing brace and the text before it is balanced:
      the first matching brace. */
  lemma {:induction false} CloseIsFirstMatch(s: string, i: nat, depth: nat, c: nat)
    requires i <= |s| && depth > 0
    ensures CloseOf(s, i, depth) == Some(c) <==> i <= c < |s| && s[c] == '}' && Scan(s[i..c], depth - 1) == Some(0)
    decreases |s| - i
  {
    if i < |s| && i < c {
      if c < |s| { assert s[i..c][1..] == s[i + 1..c]; }
      var next := if s[i] == '{' then depth + 1 else if s[i] == '}' then depth - 1 else depth;
      if next > 0 { CloseIsFirstMatch(s, i + 1, next, c); }
    } else if i < |s| {
      var next := if s[i] == '{' then depth + 1 else if s[i] == '}' then depth - 1 else depth;
      if next > 0 { CloseIsFirstMatch(s, i + 1, next, c); }
    }
  }

  /** A paragraph that starts with a sectioning command whose group closes at `c`: the header and the
      brace stay outside, the balanced title is one argument, a nonempty tail the other. */
  lemma SectionTitleIsBalanced(s: string, k: Kind, lo: nat, hi: nat, h: nat, c: nat)
    requires lo <= hi <= |s| && CommandEnd(s[..hi], lo, SECTIONING) == Some(h)
    requires h <= c < hi && s[c] == '}' && Balanced(s[h..c])
    ensures WrapOneParagraph(s, k, lo, hi)
         == [Keep(lo, h), Arg(k, h, c)] + if c + 1 < hi then [Keep(c, c + 1), Arg(k, c + 1, hi)] else [Keep(c, c + 1)]
  {
    assert s[..hi][h..c] == s[h..c];
    CloseIsFirstMatch(s[..hi], h, 1, c);
  }

  /** In every other case the whole paragraph is one argument. */
  lemma OtherParagraphsAreOneArgument(s: string, k: Kind, lo: nat, hi: nat)
    requires lo <= hi <= |s|
    requires forall h, c :: CommandEnd(s[..hi], lo, SECTIONING) == Some(h) && h <= c < hi && s[c] == '}' ==>
               !Balanced(s[h..c])
    ensures WrapOneParagraph(s, k, lo, hi) == [Arg(k, lo, hi)]
  {
    var inner := s[..hi];
    var h := CommandEnd(inner, lo, SECTIONING);
    if h.Some? && CloseOf(inner, h.value, 1).Some? {
      var c := CloseOf(inner, h.value, 1).value;
      assert inner[h.value..c] == s[h.value..c];
      CloseIsFirstMatch(inner, h.value, 1, c);
    }
  }
}
