/** The two regular expressions behind the markup, as scanners, each proved equal to the expression
    read as a grammar: `\n[ \t]*\n[ \t\n]*|\\par\b[ \t]*`, and the header of a sectioning command. */
module TcPatterns {
  import opened Common

  // ---------------------------------------------------------------- paragraph breaks

  predicate IsBlank(c: char) { c == ' ' || c == '\t' }

  predicate IsWord(c: char) { 'a' <= c <= 'z' || 'A' <= c <= 'Z' || '0' <= c <= '9' || c == '_' }

  lemma IsWordIff(c: char)
    ensures IsWord(c) <==> c in "abcdefghijklmnopqrstuvwxyz" || c in "ABCDEFGHIJKLMNOPQRSTUVWXYZ" || c in "0123456789_"
  {
  }

  function SkipBlank(s: string, i: nat): (j: nat)
    requires i <= |s|
    ensures i <= j <= |s|
    decreases |s| - i
  {
    if i < |s| && IsBlank(s[i]) then SkipBlank(s, i + 1) else i
  }

  function SkipBlankLines(s: string, i: nat): (j: nat)
    requires i <= |s|
    ensures i <= j <= |s|
    decreases |s| - i
  {
    if i < |s| && (IsBlank(s[i]) || s[i] == '\n') then SkipBlankLines(s, i + 1) else i
  }

  function SkipSpace(s: string, i: nat): (j: nat)
    requires i <= |s|
    ensures i <= j <= |s|
    decreases |s| - i
  {
    if i < |s| && IsSpace(s[i]) then SkipSpace(s, i + 1) else i
  }

  /** The end of the paragraph break that starts at `i`, or `i` if none does: a blank line, or `\par`
      as a whole word; the blanks behind it belong to it. */
  function BreakEnd(s: string, i: nat): (e: nat)
    requires i < |s|
    ensures i <= e <= |s|
    ensures e > i ==> s[i] == '\n' || s[i] == '\\'
  {
    if s[i] == '\n' then
      var j := SkipBlank(s, i + 1);
      if j < |s| && s[j] == '\n' then SkipBlankLines(s, j + 1) else i
    else if StartsAt(s, i, "\\par") && (i + 4 == |s| || !IsWord(s[i + 4])) then
      assert s[i] == s[i..i + 4][0];
      SkipBlank(s, i + 4)
    else i
  }

  lemma {:induction false} SkipBlankIff(s: string, i: nat, j: nat)
    requires i <= |s|
    ensures SkipBlank(s, i) == j <==>
              i <= j <= |s| && (forall x :: i <= x < j ==> IsBlank(s[x])) && (j == |s| || !IsBlank(s[j]))
    decreases |s| - i
  {
    if i < |s| && IsBlank(s[i]) { SkipBlankIff(s, i + 1, j); }
  }

  lemma {:induction false} SkipBlankLinesIff(s: string, i: nat, j: nat)
    requires i <= |s|
    ensures SkipBlankLines(s, i) == j <==>
              && i <= j <= |s| && (forall x :: i <= x < j ==> IsBlank(s[x]) || s[x] == '\n')
              && (j == |s| || !(IsBlank(s[j]) || s[j] == '\n'))
    decreases |s| - i
  {
    if i < |s| && (IsBlank(s[i]) || s[i] == '\n') { SkipBlankLinesIff(s, i + 1, j); }
  }

  lemma {:induction false} SkipSpaceIff(s: string, i: nat, j: nat)
    requires i <= |s|
    ensures SkipSpace(s, i) == j <==>
              i <= j <= |s| && (forall x :: i <= x < j ==> IsSpace(s[x])) && (j == |s| || !IsSpace(s[j]))
    decreases |s| - i
  {
    if i < |s| && IsSpace(s[i]) { SkipSpaceIff(s, i + 1, j); }
  }

  /** `s[i..e]` is two line feeds with only blanks between, followed by every blank and line feed there is. */
  ghost predicate BlankLineSpan(s: string, i: nat, j: nat, e: nat) {
    && i < j < e <= |s| && s[i] == '\n' && s[j] == '\n'
    && (forall x :: i < x < j ==> s[x] in " \t")
    && (forall x :: j < x < e ==> s[x] in " \t\n")
    && (e == |s| || s[e] !in " \t\n")
  }

  /** `s[i..e]` is the word `\par` and every blank behind it. */
  ghost predicate ParSpan(s: string, i: nat, e: nat) {
    && StartsAt(s, i, "\\par") && i + 4 <= e <= |s| && (i + 4 == |s| || !IsWord(s[i + 4]))
    && (forall x :: i + 4 <= x < e ==> s[x] in " \t") && (e == |s| || s[e] !in " \t")
  }

  lemma IsBlankIff(c: char)
    ensures IsBlank(c) <==> c in " \t"
    ensures IsBlank(c) || c == '\n' <==> c in " \t\n"
  {
  }

  /** The scanner finds exactly the breaks of the grammar. */
  lemma BreakEndIff(s: string, i: nat, e: nat)
    requires i < |s|
    ensures BreakEnd(s, i) == e && e > i <==> (exists j :: BlankLineSpan(s, i, j, e)) || ParSpan(s, i, e)
  {
    forall c: char ensures (IsBlank(c) <==> c in " \t") && (IsBlank(c) || c == '\n' <==> c in " \t\n") {
      IsBlankIff(c);
    }
    if s[i] == '\n' {
      var j := SkipBlank(s, i + 1);
      SkipBlankIff(s, i + 1, j);
      forall k | BlankLineSpan(s, i, k, e) ensures k == j { SkipBlankIff(s, i + 1, k); }
      if j < |s| && s[j] == '\n' {
        SkipBlankLinesIff(s, j + 1, e);
        assert BreakEnd(s, i) == e ==> BlankLineSpan(s, i, j, e);
      }
      if StartsAt(s, i, "\\par") { LetterAt(s, i, "\\par", 0); }
    } else if StartsAt(s, i, "\\par") {
      SkipBlankIff(s, i + 4, e);
    }
  }

  // ---------------------------------------------------------------- sectioning headers

  const SECTIONING := ["part", "chapter", "section", "subsection", "subsubsection", "paragraph", "subparagraph"]

  function NameEnd(s: string, i: nat, names: seq<string>): (e: Option<nat>)
    requires i <= |s|
    ensures e.Some? ==> i <= e.value <= |s|
  {
    if names == [] then None
    else if StartsAt(s, i, names[0]) then Some(i + |names[0]|)
    else NameEnd(s, i, names[1..])
  }

  /** The index behind the first `]` at or after `i`. */
  function BracketEnd(s: string, i: nat): (e: Option<nat>)
    requires i <= |s|
    ensures e.Some? ==> i < e.value <= |s|
    decreases |s| - i
  {
    if i == |s| then None else if s[i] == ']' then Some(i + 1) else BracketEnd(s, i + 1)
  }

  /** Behind the name: a star, white space, an optional bracket group, white space, a brace. */
  function HeaderTail(s: string, b: nat): (h: Option<nat>)
    requires b <= |s|
    ensures h.Some? ==> b < h.value <= |s|
  {
    var c := SkipSpace(s, if b < |s| && s[b] == '*' then b + 1 else b);
    var d := if c < |s| && s[c] == '[' then BracketEnd(s, c + 1) else Some(c);
    if d.None? then None
    else
      var e := SkipSpace(s, d.value);
      if e < |s| && s[e] == '{' then Some(e + 1) else None
  }

  /** The index behind the opening brace of a command, with one of the names, that starts at `lo`. */
  function CommandEnd(s: string, lo: nat, names: seq<string>): (h: Option<nat>)
    requires lo <= |s|
    ensures h.Some? ==> lo < h.value <= |s|
  {
    var a := SkipSpace(s, lo);
    if a == |s| || s[a] != '\\' then None
    else
      match NameEnd(s, a + 1, names)
      case None => None
      case Some(b) => HeaderTail(s, b)
  }

  ghost predicate SpaceIn(s: string, i: nat, j: nat) {
    i <= j <= |s| && forall x :: i <= x < j ==> IsSpace(s[x])
  }

  ghost predicate BracketSpan(s: string, i: nat, j: nat) {
    i + 2 <= j <= |s| && s[i] == '[' && s[j - 1] == ']' && forall x :: i < x < j - 1 ==> s[x] != ']'
  }

  /** The part behind the name, as the expression reads it: maybe a star at `b`, white space up to
      `open`, maybe a bracket group up to `close`, white space up to the brace. */
  datatype Tail = Tail(star: bool, open: nat, close: nat, brace: nat)

  ghost predicate TailShape(s: string, b: nat, q: Tail) {
    && b <= |s| && (q.star ==> b < |s| && s[b] == '*')
    && SpaceIn(s, if q.star then b + 1 else b, q.open)
    && (q.close == q.open || BracketSpan(s, q.open, q.close))
    && SpaceIn(s, q.close, q.brace) && q.brace < |s| && s[q.brace] == '{'
  }

  ghost predicate NameSpan(s: string, i: nat, names: seq<string>, e: nat) {
    exists n :: n in names && StartsAt(s, i, n) && e == i + |n|
  }

  ghost predicate TailSpan(s: string, b: nat, h: nat) {
    exists q :: TailShape(s, b, q) && q.brace + 1 == h
  }

  /** The whole header `s[lo..h]`: white space, a backslash, a name up to `b`, and the part behind it. */
  ghost predicate HeaderSpan(s: string, lo: nat, names: seq<string>, slash: nat, b: nat, h: nat) {
    && SpaceIn(s, lo, slash) && slash < |s| && s[slash] == '\\'
    && NameSpan(s, slash + 1, names, b) && TailSpan(s, b, h)
  }

  lemma {:induction false} BracketEndIff(s: string, i: nat, j: nat)
    requires i <= |s|
    ensures BracketEnd(s, i) == Some(j)
            <==> i < j <= |s| && s[j - 1] == ']' && forall x :: i <= x < j - 1 ==> s[x] != ']'
    decreases |s| - i
  {
    if i < |s| && s[i] != ']' { BracketEndIff(s, i + 1, j); }
  }

  lemma {:induction false} NameEndFinds(s: string, i: nat, names: seq<string>)
    requires i <= |s|
    ensures NameEnd(s, i, names).None? <==> forall n :: n in names ==> !StartsAt(s, i, n)
    ensures NameEnd(s, i, names).Some? ==>
              exists n :: n in names && StartsAt(s, i, n) && NameEnd(s, i, names).value == i + |n|
  {
    if names != [] && !StartsAt(s, i, names[0]) {
      NameEndFinds(s, i, names[1..]);
      assert forall n :: n in names <==> n == names[0] || n in names[1..];
    }
  }

  lemma LetterAt(s: string, i: nat, name: string, k: nat)
    requires StartsAt(s, i, name) && k < |name|
    ensures s[i + k] == name[k]
  {
    assert s[i..i + |name|][k] == name[k];
  }

  /** No two sectioning names start at the same place. */
  lemma NameIsUnique(s: string, i: nat, a: string, b: string)
    requires a in SECTIONING && b in SECTIONING && StartsAt(s, i, a) && StartsAt(s, i, b)
    ensures a == b
  {
    forall n | n in [a, b]
      ensures (n[0] == s[i] && n[2] == s[i + 2] && n[3] == s[i + 3]) && (|n| > 4 ==> n[4] == s[i + 4])
    {
      assert |n| >= 4;
      LetterAt(s, i, n, 0);
      LetterAt(s, i, n, 2);
      LetterAt(s, i, n, 3);
      if |n| > 4 { LetterAt(s, i, n, 4); }
    }
    assert a in [a, b] && b in [a, b];
  }

  /** At `i` the scanner finds a name exactly where one stands. */
  ghost predicate Resolves(s: string, i: nat, names: seq<string>)
    requires i <= |s|
  {
    forall e: nat :: NameEnd(s, i, names) == Some(e) <==> NameSpan(s, i, names, e)
  }

  lemma SectioningResolves(s: string, i: nat, names: seq<string>)
    requires i <= |s| && names == SECTIONING
    ensures Resolves(s, i, names)
  {
    forall a, b | a in names && b in names && StartsAt(s, i, a) && StartsAt(s, i, b)
      ensures a == b
    {
      NameIsUnique(s, i, a, b);
    }
    UniqueNamesResolve(s, i, names);
  }

  lemma UniqueNamesResolve(s: string, i: nat, names: seq<string>)
    requires i <= |s|
    requires forall a, b :: a in names && b in names && StartsAt(s, i, a) && StartsAt(s, i, b) ==> a == b
    ensures Resolves(s, i, names)
  {
    NameEndFinds(s, i, names);
  }

  lemma TailIsFound(s: string, b: nat, q: Tail)
    requires TailShape(s, b, q)
    ensures HeaderTail(s, b) == Some(q.brace + 1)
  {
    var after := if q.star then b + 1 else b;
    assert q.star <==> b < |s| && s[b] == '*';
    if q.close == q.open {
      SkipSpaceIff(s, after, q.brace);
      SkipSpaceIff(s, q.brace, q.brace);
    } else {
      SkipSpaceIff(s, after, q.open);
      BracketEndIff(s, q.open + 1, q.close);
      SkipSpaceIff(s, q.close, q.brace);
    }
  }

  lemma TailOfHeader(s: string, b: nat, h: nat) returns (q: Tail)
    requires b <= |s| && HeaderTail(s, b) == Some(h)
    ensures TailShape(s, b, q) && q.brace + 1 == h
  {
    var star := b < |s| && s[b] == '*';
    var after := if star then b + 1 else b;
    var c := SkipSpace(s, after);
    SkipSpaceIff(s, after, c);
    var d := if c < |s| && s[c] == '[' then BracketEnd(s, c + 1).value else c;
    if c < |s| && s[c] == '[' { BracketEndIff(s, c + 1, d); }
    SkipSpaceIff(s, d, SkipSpace(s, d));
    q := Tail(star, c, d, SkipSpace(s, d));
  }

  lemma TailIff(s: string, b: nat, h: nat)
    requires b <= |s|
    ensures HeaderTail(s, b) == Some(h) <==> TailSpan(s, b, h)
  {
    if HeaderTail(s, b) == Some(h) { var q := TailOfHeader(s, b, h); }
    forall q | TailShape(s, b, q) ensures HeaderTail(s, b) == Some(q.brace + 1) { TailIsFound(s, b, q); }
  }

  lemma HeaderIsFound(s: string, lo: nat, names: seq<string>, slash: nat, b: nat, h: nat)
    requires lo <= |s| && HeaderSpan(s, lo, names, slash, b, h) && Resolves(s, slash + 1, names)
    ensures CommandEnd(s, lo, names) == Some(h)
  {
    SkipSpaceIff(s, lo, slash);
    TailIff(s, b, h);
    assert NameEnd(s, slash + 1, names) == Some(b);
  }

  lemma HeaderHasSpan(s: string, lo: nat, names: seq<string>, h: nat) returns (slash: nat, b: nat)
    requires lo <= |s| && CommandEnd(s, lo, names) == Some(h) && Resolves(s, SkipSpace(s, lo) + 1, names)
    ensures HeaderSpan(s, lo, names, slash, b, h)
  {
    slash := SkipSpace(s, lo);
    SkipSpaceIff(s, lo, slash);
    b := NameEnd(s, slash + 1, names).value;
    assert NameSpan(s, slash + 1, names, b);
    TailIff(s, b, h);
  }

  /** The scanner accepts a header up to `h` exactly when the expression does, for names that resolve
      everywhere. */
  lemma HeaderEndIff(s: string, lo: nat, names: seq<string>, h: nat)
    requires lo <= |s| && forall i: nat :: i <= |s| ==> Resolves(s, i, names)
    ensures CommandEnd(s, lo, names) == Some(h) <==> exists slash: nat, b: nat :: HeaderSpan(s, lo, names, slash, b, h)
  {
    if CommandEnd(s, lo, names) == Some(h) {
      assert Resolves(s, SkipSpace(s, lo) + 1, names);
      var slash, b := HeaderHasSpan(s, lo, names, h);
    }
    forall slash: nat, b: nat | HeaderSpan(s, lo, names, slash, b, h)
      ensures CommandEnd(s, lo, names) == Some(h)
    {
      assert Resolves(s, slash + 1, names);
      HeaderIsFound(s, lo, names, slash, b, h);
    }
  }

  /** The scanner finds exactly the headers of the expression with the seven sectioning commands. */
  lemma SectioningHeaderIff(s: string, lo: nat, h: nat, names: seq<string>)
    requires lo <= |s|
    requires names == ["part", "chapter", "section", "subsection", "subsubsection", "paragraph", "subparagraph"]
    ensures CommandEnd(s, lo, SECTIONING) == Some(h)
            <==> exists slash: nat, b: nat :: HeaderSpan(s, lo, names, slash, b, h)
  {
    forall i: nat | i <= |s| ensures Resolves(s, i, SECTIONING) { SectioningResolves(s, i, SECTIONING); }
    HeaderEndIff(s, lo, SECTIONING, h);
  }
}
