/** Injecting the `\TCadd` / `\TCdel` definitions behind `\documentclass`, with the replacement patterns that
    `String.replace` expands: `$$`, `$&`, `` $` `` and `$'`. */
module TcMacros {
  import opened Common
  import opened TcPatterns
  import opened TrackedChanges
  import TcMarkup

  const ULEM := "\n\\usepackage[normalem]{ulem}%\n"
  const XCOLOR := "\\usepackage{xcolor}%\n"
  const DEFINITION := "\\providecommand{\\TCadd}"
  const ADDED := "[1]{\\textcolor{blue}{\\uline{#1}}}%\n"
  const DELETION := "\\providecommand{\\TCdel}"
  const DELETED := "[1]{\\textcolor{red}{\\sout{#1}}}%\n"
  const CLASS := "\\documentclass"

  // ---------------------------------------------------------------- is \TCadd defined already?

  /** A definition at `i`: the command, white space, maybe a brace, white space, `\TCadd`. */
  predicate DefinesAt(s: string, i: nat, command: string) {
    StartsAt(s, i, command) &&
    var a := SkipSpace(s, i + |command|);
    var b := SkipSpace(s, if a < |s| && s[a] == '{' then a + 1 else a);
    StartsAt(s, b, "\\TCadd")
  }

  predicate Defined(s: string) {
    exists i: nat :: i < |s| && (DefinesAt(s, i, "\\providecommand") || DefinesAt(s, i, "\\newcommand"))
  }

  // ---------------------------------------------------------------- the document class line

  function LineEnd(s: string, i: nat): (e: nat)
    requires i <= |s|
    ensures i <= e <= |s| && (e == |s| || s[e] == '\n') && forall x :: i <= x < e ==> s[x] != '\n'
    decreases |s| - i
  {
    if i == |s| || s[i] == '\n' then i else LineEnd(s, i + 1)
  }

  predicate ClassAt(s: string, i: nat) {
    StartsAt(s, i, CLASS) && (i + |CLASS| == |s| || !IsWord(s[i + |CLASS|]))
  }

  /** The first match of the class line at or after `i`. */
  function ClassLine(s: string, i: nat): (m: Option<(nat, nat)>)
    requires i <= |s|
    ensures m.Some? ==> i <= m.value.0 < m.value.1 <= |s| && ClassAt(s, m.value.0)
                        && m.value.1 == LineEnd(s, m.value.0 + |CLASS|) && m.value.0 + |CLASS| <= m.value.1
    ensures forall x :: i <= x < (if m.Some? then m.value.0 else |s|) ==> !ClassAt(s, x)
    decreases |s| - i
  {
    if i == |s| then None
    else if ClassAt(s, i) then Some((i, LineEnd(s, i + |CLASS|)))
    else ClassLine(s, i + 1)
  }

  /** `indexOf` from `i` on, for a text that does occur. */
  function IndexFrom(s: string, i: nat, h: string): (j: nat)
    requires exists x: nat :: i <= x && StartsAt(s, x, h)
    ensures i <= j && StartsAt(s, j, h) && forall x: nat :: i <= x < j ==> !StartsAt(s, x, h)
    decreases |s| - i
  {
    if StartsAt(s, i, h) then i else IndexFrom(s, i + 1, h)
  }

  // ---------------------------------------------------------------- the replacement

  predicate Expands(c: char) { c == '$' || c == '&' || c == '`' || c == '\'' }

  /** How many characters of a nonempty replacement text are read at once, and what they stand for. */
  function Taken(t: string): nat
    requires t != ""
  {
    if t[0] == '$' && |t| > 1 && Expands(t[1]) then 2 else 1
  }

  function Shown(t: string, h: string, before: string, after: string): string
    requires t != ""
  {
    if Taken(t) == 1 then [t[0]]
    else match t[1] case '$' => "$" case '&' => h case '`' => before case _ => after
  }

  /** The replacement text `t`, expanded for the match `h` between `before` and `after`. */
  function Expand(t: string, h: string, before: string, after: string): string {
    if t == "" then "" else Shown(t, h, before, after) + Expand(t[Taken(t)..], h, before, after)
  }

  /** The four patterns and what they stand for. */
  lemma PatternStandsFor(sign: char, rest: string, h: string, before: string, after: string)
    requires sign in {'$', '&', '`', '\''}
    ensures Expand(['$', sign] + rest, h, before, after)
         == (if sign == '$' then "$" else if sign == '&' then h else if sign == '`' then before else after)
            + Expand(rest, h, before, after)
  {
    assert (['$', sign] + rest)[2..] == rest;
  }

  /** Any other character stands for itself. */
  lemma OtherStandsForItself(c: char, rest: string, h: string, before: string, after: string)
    requires c != '$' || rest == "" || rest[0] !in {'$', '&', '`', '\''}
    ensures Expand([c] + rest, h, before, after) == [c] + Expand(rest, h, before, after)
  {
    assert ([c] + rest)[1..] == rest;
  }

  /** Replacing the first occurrence of `h`, which lies at `j`. */
  function Replaced(s: string, j: nat, h: string, t: string): string
    requires StartsAt(s, j, h)
  {
    s[..j] + Expand(t, h, s[..j], s[j + |h|..]) + s[j + |h|..]
  }

  /** Where the class line is, as `replace` finds it: its text is looked up again from the start. */
  function Place(s: string, m: (nat, nat)): (j: nat)
    requires m.0 <= m.1 <= |s|
    ensures j <= m.0 && StartsAt(s, j, s[m.0..m.1])
  {
    assert StartsAt(s, m.0, s[m.0..m.1]);
    IndexFrom(s, 0, s[m.0..m.1])
  }

  function Replacement(s: string, m: (nat, nat), preamble: string): string
    requires m.0 <= m.1 <= |s|
  {
    Replaced(s, Place(s, m), s[m.0..m.1], s[m.0..m.1] + preamble)
  }

  /** `InjectTcMacros` with the text to insert as a parameter. */
  function Inject(s: string, preamble: string): string {
    if Defined(s) then s
    else
      match ClassLine(s, 0)
      case None => s
      case Some(m) => Replacement(s, m, preamble)
  }

  function InjectTcMacros(s: string): string { Inject(s, ULEM + XCOLOR + DEFINITION + (ADDED + DELETION + DELETED)) }

  // ---------------------------------------------------------------- what it does

  /** Neither a pattern of its own nor the end of one. */
  predicate Inert(p: string) { (forall i :: 0 <= i < |p| ==> p[i] != '$') && (p == "" || !Expands(p[0])) }

  lemma {:induction false} ExpandInert(p: string, h: string, before: string, after: string)
    requires forall i :: 0 <= i < |p| ==> p[i] != '$'
    ensures Expand(p, h, before, after) == p
  {
    if p != "" { ExpandInert(p[1..], h, before, after); }
  }

  /** A text without replacement patterns of its own comes through at the end, whatever stands before it. */
  lemma {:induction false} ExpandAppend(t: string, p: string, h: string, before: string, after: string)
    requires Inert(p)
    ensures Expand(t + p, h, before, after) == Expand(t, h, before, after) + p
    decreases |t|
  {
    if t == "" {
      assert t + p == p;
      ExpandInert(p, h, before, after);
    } else {
      var n, u := Taken(t), t + p;
      assert u[0] == t[0] && (if |t| > 1 then u[1] == t[1] else p != "" ==> u[1] == p[0]);
      assert Taken(u) == n && u[n..] == t[n..] + p;
      ExpandAppend(t[n..], p, h, before, after);
      ConcatAssociates(Shown(t, h, before, after), Expand(t[n..], h, before, after), p);
    }
  }

  lemma InertConcat(p: string, q: string)
    requires Inert(p) && p != "" && forall i :: 0 <= i < |q| ==> q[i] != '$'
    ensures Inert(p + q)
  {
    assert (p + q)[0] == p[0];
  }

  predicate NoDollar(s: string) { forall i :: 0 <= i < |s| ==> s[i] != '$' }

  lemma LinesHaveNoDollar()
    ensures Inert(ULEM) && NoDollar(XCOLOR) && NoDollar(DEFINITION)
    ensures NoDollar(ADDED) && NoDollar(DELETION) && NoDollar(DELETED)
  {
  }

  lemma PreambleIsInert()
    ensures Inert(ULEM + XCOLOR + DEFINITION + (ADDED + DELETION + DELETED))
  {
    LinesHaveNoDollar();
    InertConcat(ULEM, XCOLOR);
    InertConcat(ULEM + XCOLOR, DEFINITION);
    InertConcat(ULEM + XCOLOR + DEFINITION, ADDED + DELETION + DELETED);
  }

  /** The inserted text arrives whole: whatever the class line holds, the result is text, preamble, text. */
  lemma PreambleArrives(s: string, j: nat, h: string, preamble: string)
    requires StartsAt(s, j, h) && Inert(preamble)
    ensures var after := s[j + |h|..];
            Replaced(s, j, h, h + preamble) == s[..j] + Expand(h, h, s[..j], after) + preamble + after
  {
    ExpandAppend(h, preamble, h, s[..j], s[j + |h|..]);
    ConcatAssociates(s[..j], Expand(h, h, s[..j], s[j + |h|..]), preamble);
  }

  lemma DefinitionIsSeen(a: string, b: string)
    ensures Defined(a + DEFINITION + b)
  {
    var s, i := a + DEFINITION + b, |a|;
    assert s[i..i + 15] == "\\providecommand" && s[i + 15] == '{' && s[i + 16] == '\\';
    assert s[i + 16..i + 22] == "\\TCadd";
    assert DefinesAt(s, i, "\\providecommand");
  }

  lemma Regroup(a: string, f: string, d: string, g: string, b: string)
    ensures a + (f + d + g) + b == (a + f) + d + (g + b)
  {
  }

  lemma {:induction false} InjectionIsIdempotentWith(s: string, front: string, back: string)
    requires Inert(front + DEFINITION + back)
    ensures var p := front + DEFINITION + back; Inject(Inject(s, p), p) == Inject(s, p)
  {
    var m, p := ClassLine(s, 0), front + DEFINITION + back;
    if !Defined(s) && m.Some? {
      var h, j := s[m.value.0..m.value.1], Place(s, m.value);
      PreambleArrives(s, j, h, p);
      var a, b := s[..j] + Expand(h, h, s[..j], s[j + |h|..]), s[j + |h|..];
      DefinitionIsSeen(a + front, back + b);
      Regroup(a, front, DEFINITION, back, b);
    }
  }

  /** Injecting twice is injecting once. */
  lemma InjectionIsIdempotent(s: string)
    ensures InjectTcMacros(InjectTcMacros(s)) == InjectTcMacros(s)
  {
    PreambleIsInert();
    InjectionIsIdempotentWith(s, ULEM + XCOLOR, ADDED + DELETION + DELETED);
  }

  predicate Special(h: string, k: int) { 0 <= k && k + 1 < |h| && h[k] == '$' && Expands(h[k + 1]) }

  ghost predicate Plain(h: string) { forall k :: !Special(h, k) }

  lemma {:induction false} ExpandPlain(t: string, h: string, before: string, after: string)
    requires Plain(t)
    ensures Expand(t, h, before, after) == t
  {
    if t != "" {
      assert !Special(t, 0);
      forall k ensures !Special(t[1..], k) { assert !Special(t, k + 1); }
      ExpandPlain(t[1..], h, before, after);
    }
  }

  lemma StartsWithin(s: string, j: nat, h: string, prefix: string)
    requires StartsAt(s, j, h) && StartsAt(h, 0, prefix)
    ensures StartsAt(s, j, prefix)
  {
    assert s[j..j + |prefix|] == s[j..j + |h|][0..|prefix|];
  }

  /** A text that goes on behind the command as the class line does is a class line too. */
  lemma LongLineIsClassLine(s: string, j: nat, h: string)
    requires StartsAt(s, j, h) && StartsAt(h, 0, CLASS) && |h| > |CLASS| && !IsWord(h[|CLASS|])
    ensures ClassAt(s, j)
  {
    StartsWithin(s, j, h, CLASS);
    LetterAt(s, j, h, |CLASS|);
  }

  /** The line is found again at its own place, unless it is the bare command: then an earlier longer
      command, such as `\documentclassx`, is cut in two. */
  lemma PlaceIsClassLineIff(s: string, m: (nat, nat))
    requires ClassLine(s, 0) == Some(m)
    ensures Place(s, m) == m.0 <==> m.1 > m.0 + |CLASS| || forall x: nat :: x < m.0 ==> !StartsAt(s, x, CLASS)
  {
    var h, j := s[m.0..m.1], Place(s, m);
    assert StartsAt(h, 0, CLASS) by { assert h[0..|CLASS|] == s[m.0..m.0 + |CLASS|]; }
    StartsWithin(s, j, h, CLASS);
    if m.1 > m.0 + |CLASS| { LongLineIsClassLine(s, j, h); } else { assert h == CLASS; }
  }

  /** The end of the class line where `replace` finds it. */
  function CutAt(s: string, m: (nat, nat)): (cut: nat)
    requires m.0 <= m.1 <= |s|
    ensures cut <= |s|
  {
    Place(s, m) + (m.1 - m.0)
  }

  lemma InjectReplaces(s: string, m: (nat, nat), preamble: string)
    requires !Defined(s) && ClassLine(s, 0) == Some(m)
    ensures Inject(s, preamble) == Replacement(s, m, preamble)
  {
  }

  /** Without replacement patterns in the class line, erasing the inserted text gives the source back. */
  lemma PlainLineIsKept(s: string, m: (nat, nat), preamble: string)
    requires !Defined(s) && ClassLine(s, 0) == Some(m) && Inert(preamble) && Plain(s[m.0..m.1])
    ensures Inject(s, preamble) == s[..CutAt(s, m)] + preamble + s[CutAt(s, m)..]
  {
    assert Inject(s, preamble) == Replacement(s, m, preamble) by { InjectReplaces(s, m, preamble); }
    assert Replacement(s, m, preamble) == s[..CutAt(s, m)] + preamble + s[CutAt(s, m)..] by {
      PlainReplacementAt(s, m, preamble);
    }
  }

  // ---------------------------------------------------------------- what is inserted, and where

  /** The macro is defined at `i`: white space up to `a`, maybe a brace, white space up to `\TCadd` at `b`. */
  ghost predicate DefinitionSpan(s: string, i: nat, command: string, a: nat, brace: bool, b: nat) {
    && StartsAt(s, i, command) && SpaceIn(s, i + |command|, a) && (brace ==> a < |s| && s[a] == '{')
    && SpaceIn(s, if brace then a + 1 else a, b) && StartsAt(s, b, "\\TCadd")
  }

  /** Some `\providecommand` or `\newcommand` of the source defines `\TCadd`. */
  ghost predicate HasDefinition(s: string) {
    exists i: nat, command, a: nat, brace, b: nat ::
      DefinitionSpan(s, i, command, a, brace, b) && command in {"\\providecommand", "\\newcommand"}
  }

  lemma SpanIsSeen(s: string, i: nat, command: string, a: nat, brace: bool, b: nat)
    requires DefinitionSpan(s, i, command, a, brace, b)
    ensures DefinesAt(s, i, command)
  {
    assert s[b] == '\\' by { LetterAt(s, b, "\\TCadd", 0); }
    if brace {
      SkipSpaceIff(s, i + |command|, a);
      SkipSpaceIff(s, a + 1, b);
    } else {
      SkipSpaceIff(s, i + |command|, b);
      SkipSpaceIff(s, b, b);
    }
  }

  lemma SeenHasSpan(s: string, i: nat, command: string) returns (a: nat, brace: bool, b: nat)
    requires DefinesAt(s, i, command)
    ensures DefinitionSpan(s, i, command, a, brace, b)
  {
    a := SkipSpace(s, i + |command|);
    brace := a < |s| && s[a] == '{';
    b := SkipSpace(s, if brace then a + 1 else a);
    SkipSpaceIff(s, i + |command|, a);
    SkipSpaceIff(s, if brace then a + 1 else a, b);
  }

  lemma DefinedIff(s: string)
    ensures Defined(s) <==> HasDefinition(s)
  {
    if Defined(s) {
      var i: nat :| i < |s| && (DefinesAt(s, i, "\\providecommand") || DefinesAt(s, i, "\\newcommand"));
      SeenIsDefinition(s, i, if DefinesAt(s, i, "\\providecommand") then "\\providecommand" else "\\newcommand");
    }
    if HasDefinition(s) { DefinitionIsFound(s); }
  }

  lemma SeenIsDefinition(s: string, i: nat, command: string)
    requires DefinesAt(s, i, command) && command in {"\\providecommand", "\\newcommand"}
    ensures HasDefinition(s)
  {
    var a, brace, b := SeenHasSpan(s, i, command);
  }

  lemma DefinitionIsFound(s: string)
    requires HasDefinition(s)
    ensures Defined(s)
  {
    var i: nat, command, a: nat, brace, b: nat :|
      DefinitionSpan(s, i, command, a, brace, b) && command in {"\\providecommand", "\\newcommand"};
    SpanIsSeen(s, i, command, a, brace, b);
  }

  /** `\documentclass` as a whole word. */
  ghost predicate ClassWordAt(s: string, i: nat) {
    StartsAt(s, i, "\\documentclass") && (i + 14 == |s| || !IsWord(s[i + 14]))
  }

  /** The line of the first such command, from the command to the line feed. */
  ghost predicate IsClassLine(s: string, lo: nat, hi: nat) {
    && ClassWordAt(s, lo) && (forall x: nat :: x < lo ==> !ClassWordAt(s, x))
    && lo + 14 <= hi <= |s| && (hi == |s| || s[hi] == '\n') && forall x :: lo + 14 <= x < hi ==> s[x] != '\n'
  }

  lemma ClassLineIff(s: string, lo: nat, hi: nat)
    ensures ClassLine(s, 0) == Some((lo, hi)) <==> IsClassLine(s, lo, hi)
    ensures ClassLine(s, 0).None? <==> forall x: nat :: !ClassWordAt(s, x)
  {
    assert |CLASS| == 14;
    forall x: nat ensures ClassAt(s, x) <==> ClassWordAt(s, x) {}
  }

  lemma PreambleIsInserted(s: string, lo: nat, hi: nat, preamble: string)
    requires !HasDefinition(s) && IsClassLine(s, lo, hi) && hi > lo + 14 && '$' !in s[lo..hi] && Inert(preamble)
    ensures Inject(s, preamble) == s[..hi] + preamble + s[hi..]
  {
    var m := (lo, hi);
    assert !Defined(s) by { DefinedIff(s); }
    assert ClassLine(s, 0) == Some(m) by { ClassLineIff(s, lo, hi); }
    assert Plain(s[lo..hi]) by { DollarFreeIsPlain(s[lo..hi]); }
    assert CutAt(s, m) == hi by { PlaceIsClassLineIff(s, m); }
    PlainLineIsKept(s, m, preamble);
  }

  lemma DollarFreeIsPlain(h: string)
    requires '$' !in h
    ensures Plain(h)
  {
  }

  /** Behind a class line without dollar signs the source goes on after the two packages and the two
      definitions, provided that the line is more than the bare command. */
  lemma DefinitionsAreInserted(s: string, lo: nat, hi: nat)
    requires !HasDefinition(s) && IsClassLine(s, lo, hi) && hi > lo + 14 && '$' !in s[lo..hi]
    ensures InjectTcMacros(s)
         == s[..hi]
            + ("\n\\usepackage[normalem]{ulem}%\n" + "\\usepackage{xcolor}%\n"
               + "\\providecommand{\\TCadd}" + ("[1]{\\textcolor{blue}{\\uline{#1}}}%\n"
               + "\\providecommand{\\TCdel}" + "[1]{\\textcolor{red}{\\sout{#1}}}%\n"))
            + s[hi..]
  {
    PreambleIsInert();
    PreambleIsInserted(s, lo, hi, ULEM + XCOLOR + DEFINITION + (ADDED + DELETION + DELETED));
  }

  /** A source that has the definition, or no class line, is left alone. */
  lemma OthersAreKept(s: string)
    requires HasDefinition(s) || forall x: nat :: !ClassWordAt(s, x)
    ensures InjectTcMacros(s) == s
  {
    DefinedIff(s);
    ClassLineIff(s, 0, 0);
  }

  /** What is defined is what the markup uses. */
  lemma MacrosAreDefined()
    ensures DEFINITION == "\\providecommand{" + TcMarkup.Macro(Ins) + "}" == "\\providecommand{\\TCadd}"
    ensures DELETION == "\\providecommand{" + TcMarkup.Macro(Del) + "}" == "\\providecommand{\\TCdel}"
  {
  }

  lemma PlainReplacementAt(s: string, m: (nat, nat), preamble: string)
    requires m.0 <= m.1 <= |s| && Inert(preamble) && Plain(s[m.0..m.1])
    ensures Replacement(s, m, preamble) == s[..CutAt(s, m)] + preamble + s[CutAt(s, m)..]
  {
    PlainReplacement(s, Place(s, m), s[m.0..m.1], preamble);
  }

  lemma PlainReplacement(s: string, j: nat, h: string, preamble: string)
    requires StartsAt(s, j, h) && Inert(preamble) && Plain(h)
    ensures Replaced(s, j, h, h + preamble) == s[..j + |h|] + preamble + s[j + |h|..]
  {
    PreambleArrives(s, j, h, preamble);
    ExpandPlain(h, h, s[..j], s[j + |h|..]);
    FrontOf(s, j, h);
  }

  lemma FrontOf(s: string, j: nat, h: string)
    requires StartsAt(s, j, h)
    ensures s[..j] + h == s[..j + |h|]
  {
    assert s[j..j + |h|] == h;
  }

  ghost predicate FirstSpecial(t: string, k: nat) { Special(t, k) && forall j :: j < k ==> !Special(t, j) }

  lemma FirstSpecialBehind(t: string, k: nat)
    requires FirstSpecial(t, k) && k > 0
    ensures FirstSpecial(t[1..], k - 1)
  {
    forall j | j < k - 1 ensures !Special(t[1..], j) { assert !Special(t, j + 1); }
  }

  lemma {:induction false} ExpandUpTo(t: string, k: nat, h: string, before: string, after: string)
    requires FirstSpecial(t, k)
    ensures Expand(t, h, before, after) == t[..k] + Expand(t[k..], h, before, after)
    decreases k
  {
    if k == 0 {
      assert t[0..] == t;
    } else {
      assert !Special(t, 0) && Taken(t) == 1;
      var rest := t[1..];
      FirstSpecialBehind(t, k);
      ExpandUpTo(rest, k - 1, h, before, after);
      assert rest[k - 1..] == t[k..] && [t[0]] + rest[..k - 1] == t[..k];
      ConcatAssociates([t[0]], rest[..k - 1], Expand(t[k..], h, before, after));
    }
  }

  /** The first pattern in a class line is replaced by what it stands for: a dollar sign, the line, or the
      text before or after it; what stands before it is kept, what follows is expanded in turn. */
  lemma PatternInLineIsExpanded(h: string, k: nat, before: string, after: string)
    requires FirstSpecial(h, k)
    ensures Expand(h, h, before, after)
            == h[..k] + ((match h[k + 1] case '$' => "$" case '&' => h case '`' => before case _ => after)
                         + Expand(h[k + 2..], h, before, after))
  {
    ExpandUpTo(h, k, h, before, after);
    assert Taken(h[k..]) == 2 && h[k..][2..] == h[k + 2..];
  }

  /** A line whose only patterns are doubled dollar signs loses one sign for each; so it is kept exactly
      when it has none. */
  lemma {:induction false} DoubledSignsShrink(t: string, h: string, before: string, after: string)
    requires forall k :: Special(t, k) ==> t[k + 1] == '$'
    ensures |Expand(t, h, before, after)| <= |t|
    ensures |Expand(t, h, before, after)| == |t| <==> Plain(t)
    decreases |t|
  {
    if t != "" {
      var n := Taken(t);
      var rest := t[n..];
      assert n == 2 <==> Special(t, 0);
      forall k | Special(rest, k) ensures Special(t, k + n) && rest[k + 1] == '$' { assert Special(t, k + n); }
      DoubledSignsShrink(rest, h, before, after);
      if n == 1 { assert Plain(rest) ==> Plain(t) by { TailIsPlain(t); } }
    }
  }

  lemma TailIsPlain(t: string)
    requires t != "" && !Special(t, 0)
    ensures Plain(t) <==> Plain(t[1..])
  {
    forall k ensures Special(t[1..], k) <==> k >= 0 && Special(t, k + 1) {}
    if Plain(t[1..]) {
      forall k ensures !Special(t, k) { if k > 0 { assert !Special(t[1..], k - 1); } }
    }
  }

  /** With other patterns a line can come out as it was by accident of what stands before it. */
  lemma PatternsCanCancel(h: string, before: string, after: string)
    requires h == CLASS + "$$$`" && before == "$$`"
    ensures !Plain(h) && Expand(h, h, before, after) == h
  {
    var k, rest := |CLASS|, h[|CLASS| + 2..];
    assert Special(h, k) && forall j :: 0 <= j < k ==> h[j] == CLASS[j] != '$';
    PatternInLineIsExpanded(h, k, before, after);
    assert rest == "$`" && rest[2..] == "";
    assert Expand(rest, h, before, after) == before + Expand("", h, before, after) == before;
    assert h[..k] == CLASS;
  }
}
