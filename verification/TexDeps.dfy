/** The dependency graph of a LaTeX project: the commands that name files, how a name resolves to project
    paths, and the worklist that collects the used files. `\makeindex` is looked up with a regular
    expression that remembers where its last match ended, between files and between calls. */
module TexDeps {
  import opened Common
  import opened TcPatterns

  type Path = string
  datatype File = File(path: Path, content: string, binary: bool)

  // ---------------------------------------------------------------- commands that name files

  /** `\name`, maybe a bracket group, white space, and a nonempty brace group up to the first `}`. */
  datatype Pattern = Pattern(names: seq<string>, bracket: bool)

  const INPUT := Pattern(["input", "include", "subfile"], false)
  const GRAPHICS := Pattern(["includegraphics"], true)
  const BIB := Pattern(["bibliography", "addbibresource"], false)
  const BIBSTYLE := Pattern(["bibliographystyle"], false)
  const USEPACKAGE := Pattern(["usepackage", "RequirePackage"], true)
  const DOCUMENTCLASS := Pattern(["documentclass"], true)
  const LOADCLASS := Pattern(["LoadClass"], true)
  const MAKEINDEX := "\\makeindex"

  function GroupEnd(s: string, i: nat): (e: Option<nat>)
    requires i <= |s|
    ensures e.Some? ==> i <= e.value < |s| && s[e.value] == '}'
    decreases |s| - i
  {
    if i == |s| then None else if s[i] == '}' then Some(i) else GroupEnd(s, i + 1)
  }

  /** A match at `i`: the argument's bounds. */
  function MatchAt(s: string, i: nat, p: Pattern): (m: Option<(nat, nat)>)
    requires i < |s|
    ensures m.Some? ==> i < m.value.0 < m.value.1 < |s|
  {
    if s[i] != '\\' then None
    else
      var b := NameEnd(s, i + 1, p.names);
      if b.None? then None
      else
        var c := if p.bracket && b.value < |s| && s[b.value] == '[' then BracketEnd(s, b.value + 1) else b;
        if c.None? then None
        else
          var d := SkipSpace(s, c.value);
          if d == |s| || s[d] != '{' then None
          else
            var e := GroupEnd(s, d + 1);
            if e.None? || e.value == d + 1 then None else Some((d + 1, e.value))
  }

  /** `matchAll`: the arguments of the successive matches. */
  function Matches(s: string, i: nat, p: Pattern): seq<string>
    requires i <= |s|
    decreases |s| - i
  {
    if i == |s| then []
    else
      match MatchAt(s, i, p)
      case None => Matches(s, i + 1, p)
      case Some(m) => [s[m.0..m.1]] + Matches(s, m.1 + 1, p)
  }

  /** The expression read as a grammar: the name ends at `b`, a bracket group at `c`, the argument is
      `s[a..e]`. */
  ghost predicate CommandSpan(s: string, i: nat, p: Pattern, b: nat, c: nat, a: nat, e: nat) {
    && i < |s| && s[i] == '\\' && NameSpan(s, i + 1, p.names, b)
    && (c == b || (p.bracket && BracketSpan(s, b, c)))
    && 0 < a < e < |s| && SpaceIn(s, c, a - 1) && s[a - 1] == '{' && s[e] == '}'
    && forall x :: a <= x < e ==> s[x] != '}'
  }

  lemma {:induction false} GroupEndIff(s: string, i: nat, e: nat)
    requires i <= |s|
    ensures GroupEnd(s, i) == Some(e) <==> i <= e < |s| && s[e] == '}' && forall x :: i <= x < e ==> s[x] != '}'
    decreases |s| - i
  {
    if i < |s| && s[i] != '}' { GroupEndIff(s, i + 1, e); }
  }

  lemma CommandIsMatched(s: string, i: nat, p: Pattern, b: nat, c: nat, a: nat, e: nat)
    requires CommandSpan(s, i, p, b, c, a, e) && Resolves(s, i + 1, p.names)
    ensures MatchAt(s, i, p) == Some((a, e))
  {
    assert NameEnd(s, i + 1, p.names) == Some(b);
    if c != b { BracketEndIff(s, b + 1, c); }
    SkipSpaceIff(s, c, a - 1);
    GroupEndIff(s, a, e);
  }

  lemma MatchHasSpan(s: string, i: nat, p: Pattern, a: nat, e: nat) returns (b: nat, c: nat)
    requires i < |s| && MatchAt(s, i, p) == Some((a, e)) && Resolves(s, i + 1, p.names)
    ensures CommandSpan(s, i, p, b, c, a, e)
  {
    b := NameEnd(s, i + 1, p.names).value;
    c := if p.bracket && b < |s| && s[b] == '[' then BracketEnd(s, b + 1).value else b;
    if p.bracket && b < |s| && s[b] == '[' { BracketEndIff(s, b + 1, c); }
    SkipSpaceIff(s, c, a - 1);
    GroupEndIff(s, a, e);
    assert NameSpan(s, i + 1, p.names, b);
  }

  /** The scanner matches at `i` exactly what the expression does. */
  lemma MatchAtIff(s: string, i: nat, p: Pattern, a: nat, e: nat)
    requires i < |s| && Resolves(s, i + 1, p.names)
    ensures MatchAt(s, i, p) == Some((a, e)) <==> exists b: nat, c: nat :: CommandSpan(s, i, p, b, c, a, e)
  {
    if MatchAt(s, i, p) == Some((a, e)) { var b, c := MatchHasSpan(s, i, p, a, e); }
    forall b: nat, c: nat | CommandSpan(s, i, p, b, c, a, e) ensures MatchAt(s, i, p) == Some((a, e)) {
      CommandIsMatched(s, i, p, b, c, a, e);
    }
  }

  /** Names that differ pairwise at one position never start at the same place; the alternatives of each
      expression above do. */
  lemma DistinctNamesResolve(s: string, i: nat, names: seq<string>, k: nat)
    requires i <= |s|
    requires forall a, b :: a in names && b in names && a != b ==> k < |a| && k < |b| && a[k] != b[k]
    ensures Resolves(s, i, names)
  {
    forall a, b | a in names && b in names && StartsAt(s, i, a) && StartsAt(s, i, b)
      ensures a == b
    {
      if a != b {
        LetterAt(s, i, a, k);
        LetterAt(s, i, b, k);
      }
    }
    UniqueNamesResolve(s, i, names);
  }

  const PATTERNS := [INPUT, GRAPHICS, BIB, BIBSTYLE, USEPACKAGE, DOCUMENTCLASS, LOADCLASS]

  lemma InputResolves(s: string, i: nat)
    requires i <= |s|
    ensures Resolves(s, i, INPUT.names)
  {
    DistinctNamesResolve(s, i, INPUT.names, 2);
  }

  lemma BibResolves(s: string, i: nat)
    requires i <= |s|
    ensures Resolves(s, i, BIB.names)
  {
    DistinctNamesResolve(s, i, BIB.names, 0);
  }

  lemma PackageResolves(s: string, i: nat)
    requires i <= |s|
    ensures Resolves(s, i, USEPACKAGE.names)
  {
    DistinctNamesResolve(s, i, USEPACKAGE.names, 0);
  }

  lemma OneNameResolves(s: string, i: nat, names: seq<string>)
    requires i <= |s| && |names| == 1
    ensures Resolves(s, i, names)
  {
    UniqueNamesResolve(s, i, names);
  }

  lemma PatternsResolve(s: string, i: nat, p: Pattern)
    requires i <= |s| && p in PATTERNS
    ensures Resolves(s, i, p.names)
  {
    if p == INPUT {
      InputResolves(s, i);
    } else if p == BIB {
      BibResolves(s, i);
    } else if p == USEPACKAGE {
      PackageResolves(s, i);
    } else {
      OneNameResolves(s, i, p.names);
    }
  }

  /** Each of the seven expressions matches at `i` exactly where, and up to where, its scanner does. */
  lemma CommandIsFoundIff(s: string, i: nat, p: Pattern, a: nat, e: nat)
    requires i < |s| && p in PATTERNS
    ensures MatchAt(s, i, p) == Some((a, e)) <==> exists b: nat, c: nat :: CommandSpan(s, i, p, b, c, a, e)
  {
    PatternsResolve(s, i + 1, p);
    MatchAtIff(s, i, p, a, e);
  }

  // ---------------------------------------------------------------- all the commands of a text

  /** A command: where it starts, and the bounds of its argument. */
  datatype Command = Command(at: nat, lo: nat, hi: nat)

  ghost predicate Stands(s: string, p: Pattern, f: Command) {
    exists b: nat, c: nat :: CommandSpan(s, f.at, p, b, c, f.lo, f.hi)
  }

  ghost function Commands(s: string, p: Pattern): iset<Command> { iset f: Command | Stands(s, p, f) }

  /** What a search from `from` on finds among the commands `all`: the leftmost one, and then what a
      search from behind its closing brace finds. */
  ghost predicate Chain(all: iset<Command>, from: nat, ms: seq<Command>)
    decreases |ms|
  {
    if ms == [] then forall f :: f in all ==> f.at < from
    else
      && ms[0] in all && from <= ms[0].at
      && (forall f :: f in all && from <= f.at ==> ms[0].at <= f.at)
      && Chain(all, ms[0].hi + 1, ms[1..])
  }

  /** A search finds a command of the pattern with this argument. */
  ghost predicate Mentions(s: string, p: Pattern, arg: string) {
    exists ms, f :: Chain(Commands(s, p), 0, ms) && f in ms && HasArgument(s, f, arg)
  }

  ghost predicate HasArgument(s: string, f: Command, arg: string) { f.lo <= f.hi <= |s| && arg == s[f.lo..f.hi] }

  /** Commands have some length, and no two start at one place. */
  ghost predicate Separate(all: iset<Command>) {
    && (forall f :: f in all ==> f.at < f.hi)
    && (forall f, g :: f in all && g in all && f.at == g.at ==> f == g)
  }

  lemma {:induction false} ChainSkips(all: iset<Command>, from: nat, ms: seq<Command>)
    requires Chain(all, from + 1, ms) && forall f :: f in all ==> f.at != from
    ensures Chain(all, from, ms)
  {
  }

  /** What a search finds is determined. */
  lemma {:induction false} ChainIsUnique(all: iset<Command>, from: nat, ms: seq<Command>, ns: seq<Command>)
    requires Separate(all) && Chain(all, from, ms) && Chain(all, from, ns)
    ensures ms == ns
    decreases |ms|
  {
    if ms != [] && ns != [] {
      assert ms[0] == ns[0];
      ChainIsUnique(all, ms[0].hi + 1, ms[1..], ns[1..]);
      assert ms == [ms[0]] + ms[1..] && ns == [ns[0]] + ns[1..];
    }
  }

  /** Only commands are found, and none is left out unless it starts inside one that is found. */
  lemma {:induction false} NoneIsLeftOut(all: iset<Command>, from: nat, ms: seq<Command>, f: Command)
    requires Separate(all) && Chain(all, from, ms)
    ensures f in ms ==> f in all
    ensures f in all && from <= f.at ==> exists g :: g in ms && g.at <= f.at <= g.hi
    decreases |ms|
  {
    if ms != [] {
      NoneIsLeftOut(all, ms[0].hi + 1, ms[1..], f);
      if f in all && from <= f.at && f.at <= ms[0].hi { assert ms[0] in ms; }
    }
  }

  lemma StandsIff(s: string, p: Pattern, f: Command)
    requires p in PATTERNS
    ensures Stands(s, p, f) <==> f.at < |s| && MatchAt(s, f.at, p) == Some((f.lo, f.hi))
  {
    if f.at < |s| { CommandIsFoundIff(s, f.at, p, f.lo, f.hi); }
  }

  lemma CommandsAreSeparate(s: string, p: Pattern)
    requires p in PATTERNS
    ensures Separate(Commands(s, p)) && SeenBy(Commands(s, p), s, p)
  {
    forall f { StandsIff(s, p, f); }
  }

  ghost function Arguments(s: string, ms: seq<Command>): seq<string>
    requires forall f :: f in ms ==> f.lo <= f.hi <= |s|
  {
    if ms == [] then [] else [s[ms[0].lo..ms[0].hi]] + Arguments(s, ms[1..])
  }

  lemma {:induction false} ArgumentsIff(s: string, ms: seq<Command>, arg: string)
    requires forall f :: f in ms ==> f.lo <= f.hi <= |s|
    ensures arg in Arguments(s, ms) <==> exists f :: f in ms && HasArgument(s, f, arg)
  {
    if ms != [] {
      ArgumentsIff(s, ms[1..], arg);
      assert forall f :: f in ms <==> f == ms[0] || f in ms[1..];
    }
  }

  /** `all` are the commands that the scanner sees. */
  ghost predicate SeenBy(all: iset<Command>, s: string, p: Pattern) {
    forall f :: f in all <==> f.at < |s| && MatchAt(s, f.at, p) == Some((f.lo, f.hi))
  }

  lemma ScanEnds(all: iset<Command>, s: string, p: Pattern)
    requires SeenBy(all, s, p)
    ensures Chain(all, |s|, [])
  {
  }

  lemma ScanSkips(all: iset<Command>, s: string, p: Pattern, i: nat, ms: seq<Command>)
    requires SeenBy(all, s, p) && i < |s| && MatchAt(s, i, p).None? && Chain(all, i + 1, ms)
    ensures Chain(all, i, ms)
  {
    ChainSkips(all, i, ms);
  }

  lemma ScanTakes(all: iset<Command>, s: string, p: Pattern, f: Command, rest: seq<Command>)
    requires SeenBy(all, s, p) && f.at < |s| && MatchAt(s, f.at, p) == Some((f.lo, f.hi)) && Chain(all, f.hi + 1, rest)
    ensures Chain(all, f.at, [f] + rest)
  {
    assert ([f] + rest)[1..] == rest;
  }

  lemma ArgumentsCons(s: string, f: Command, rest: seq<Command>)
    requires f.lo <= f.hi <= |s| && forall g :: g in rest ==> g.lo <= g.hi <= |s|
    ensures (forall g :: g in [f] + rest ==> g.lo <= g.hi <= |s|)
            && Arguments(s, [f] + rest) == [s[f.lo..f.hi]] + Arguments(s, rest)
  {
    assert ([f] + rest)[1..] == rest;
  }

  /** The scan returns the arguments of what a search finds, in order. */
  lemma {:induction false} MatchesAreAChain(s: string, i: nat, p: Pattern, all: iset<Command>)
    returns (ms: seq<Command>)
    requires i <= |s| && SeenBy(all, s, p)
    ensures Chain(all, i, ms) && forall f :: f in ms ==> f.lo <= f.hi <= |s|
    ensures Matches(s, i, p) == Arguments(s, ms)
    decreases |s| - i
  {
    if i == |s| {
      ms := [];
      ScanEnds(all, s, p);
    } else if MatchAt(s, i, p).None? {
      ms := MatchesAreAChain(s, i + 1, p, all);
      ScanSkips(all, s, p, i, ms);
    } else {
      var f := Command(i, MatchAt(s, i, p).value.0, MatchAt(s, i, p).value.1);
      var rest := MatchesAreAChain(s, f.hi + 1, p, all);
      ms := [f] + rest;
      ScanTakes(all, s, p, f, rest);
      ArgumentsCons(s, f, rest);
    }
  }

  lemma MatchesIff(s: string, p: Pattern, arg: string)
    requires p in PATTERNS
    ensures arg in Matches(s, 0, p) <==> Mentions(s, p, arg)
  {
    CommandsAreSeparate(s, p);
    var ms := MatchesAreAChain(s, 0, p, Commands(s, p));
    ArgumentsIff(s, ms, arg);
    if Mentions(s, p, arg) {
      var ns, f :| Chain(Commands(s, p), 0, ns) && f in ns && HasArgument(s, f, arg);
      ChainIsUnique(Commands(s, p), 0, ms, ns);
    }
  }

  // ---------------------------------------------------------------- resolving names

  const TEX_EXTS := [".tex", ""]
  const IMAGE_EXTS := [".png", ".jpg", ".jpeg", ".pdf", ".eps", ".svg", ".gif", ".bmp", ".tiff"]

  function WithExts(name: string, exts: seq<string>, paths: set<Path>): (r: seq<Path>)
    ensures forall c :: c in r <==> c in paths && exists e :: e in exts && c == name + e
  {
    if exts == [] then []
    else
      assert forall e :: e in exts <==> e == exts[0] || e in exts[1..];
      (if name + exts[0] in paths then [name + exts[0]] else []) + WithExts(name, exts[1..], paths)
  }

  /** An exact match wins; otherwise every extension that gives an existing path. */
  function Resolve(name: string, exts: seq<string>, paths: set<Path>): (r: seq<Path>)
    ensures forall c :: c in r <==>
              c in paths && if name in paths then c == name else exists e :: e in exts && c == name + e
  {
    if name in paths then [name] else WithExts(name, exts, paths)
  }

  method ResolvePath(name: string, exts: seq<string>, paths: set<Path>) returns (results: seq<Path>)
    ensures results == Resolve(name, exts, paths)
  {
    if name in paths { return [name]; }
    results := [];
    for i := 0 to |exts|
      invariant results + WithExts(name, exts[i..], paths) == WithExts(name, exts, paths)
    {
      assert exts[i..][0] == exts[i] && exts[i..][1..] == exts[i + 1..];
      var found := if name + exts[i] in paths then [name + exts[i]] else [];
      ConcatAssociates(results, found, WithExts(name, exts[i + 1..], paths));
      if name + exts[i] in paths { results := results + [name + exts[i]]; }
    }
  }

  function AddExt(name: string, ext: string): string { if EndsWith(name, ext) then name else name + ext }

  function ResolveBib(name: string, paths: set<Path>): (r: seq<Path>)
    ensures forall c :: c in r ==> c in paths
  {
    if name in paths then [name] else if AddExt(name, ".bib") in paths then [AddExt(name, ".bib")] else []
  }

  function ResolveLocal(name: string, ext: string, paths: set<Path>): (r: seq<Path>)
    ensures forall c :: c in r ==> c in paths
  {
    if AddExt(name, ext) in paths then [AddExt(name, ext)] else []
  }

  function Trim(s: string): string
    decreases |s|
  {
    if s != "" && IsSpace(s[0]) then Trim(s[1..])
    else if s != "" && IsSpace(s[|s| - 1]) then Trim(s[..|s| - 1])
    else s
  }

  datatype Kind = Tex | Graphics | Bibliography | Local(ext: string)

  function ResolveAs(k: Kind, name: string, paths: set<Path>): (r: seq<Path>)
    ensures forall c :: c in r ==> c in paths
  {
    match k
    case Tex => Resolve(name, TEX_EXTS, paths)
    case Graphics => Resolve(name, IMAGE_EXTS, paths)
    case Bibliography => ResolveBib(name, paths)
    case Local(ext) => ResolveLocal(name, ext, paths)
  }

  function ResolveAll(k: Kind, names: seq<string>, paths: set<Path>): (r: seq<Path>)
    ensures forall c :: c in r ==> c in paths
    ensures forall c :: c in r <==> exists n :: n in names && c in ResolveAs(k, n, paths)
  {
    if names == [] then []
    else
      assert forall n :: n in names <==> n == names[0] || n in names[1..];
      ResolveAs(k, names[0], paths) + ResolveAll(k, names[1..], paths)
  }

  /** Comma-separated arguments, each trimmed. */
  function Listed(args: seq<string>): seq<string> {
    if args == [] then [] else Items(args[0]) + Listed(args[1..])
  }

  function Items(arg: string): seq<string> { Trimmed(Split(arg, ',')) }

  function Trimmed(names: seq<string>): seq<string> {
    if names == [] then [] else [Trim(names[0])] + Trimmed(names[1..])
  }

  /** Candidates that are pushed only when they are not used yet. */
  function Checked(s: string, paths: set<Path>): (r: seq<Path>)
    ensures forall c :: c in r ==> c in paths
  {
    ResolveAll(Tex, Matches(s, 0, INPUT), paths)
    + ResolveAll(Graphics, Matches(s, 0, GRAPHICS), paths)
    + ResolveAll(Bibliography, Listed(Matches(s, 0, BIB)), paths)
  }

  /** Candidates that are pushed whether used or not. */
  function Unchecked(s: string, paths: set<Path>): (r: seq<Path>)
    ensures forall c :: c in r ==> c in paths
  {
    ResolveAll(Local(".bst"), Matches(s, 0, BIBSTYLE), paths)
    + ResolveAll(Local(".sty"), Listed(Matches(s, 0, USEPACKAGE)), paths)
    + ResolveAll(Local(".cls"), Matches(s, 0, DOCUMENTCLASS), paths)
    + ResolveAll(Local(".cls"), Matches(s, 0, LOADCLASS), paths)
  }

  // ---------------------------------------------------------------- what the names stand for

  ghost predicate Ends(s: string, suffix: string) { exists stem :: s == stem + suffix }

  lemma EndsIff(s: string, suffix: string)
    ensures Ends(s, suffix) <==> EndsWith(s, suffix)
  {
    if EndsWith(s, suffix) { assert s == s[..|s| - |suffix|] + suffix; }
    forall stem | s == stem + suffix ensures EndsWith(s, suffix) { assert s[|stem|..] == suffix; }
  }

  /** `y` is the name itself, or, when there is no such file, the name with `.tex`. */
  ghost predicate TexFileOf(name: string, y: Path, paths: set<Path>) {
    y == name || (name !in paths && y == name + ".tex")
  }

  /** `y` is the name itself, or, when there is no such file, the name with any image extension. */
  ghost predicate ImageOf(name: string, y: Path, paths: set<Path>) {
    y == name || (name !in paths && exists e :: y == name + e && ImageExtension(e))
  }

  ghost predicate ImageExtension(e: string) {
    e in {".png", ".jpg", ".jpeg", ".pdf", ".eps", ".svg", ".gif", ".bmp", ".tiff"}
  }

  ghost predicate BibFileOf(name: string, y: Path, paths: set<Path>) {
    y == name || (name !in paths && !Ends(name, ".bib") && y == name + ".bib")
  }

  /** `y` is the name, with the extension added unless it ends in it. */
  ghost predicate LocalFileOf(name: string, ext: string, y: Path) {
    if Ends(name, ext) then y == name else y == name + ext
  }

  /** `arg[lo..hi]` lies between two commas, or ends, of the list. */
  ghost predicate Segment(arg: string, sep: char, lo: nat, hi: nat) {
    && lo <= hi <= |arg| && (lo == 0 || arg[lo - 1] == sep) && (hi == |arg| || arg[hi] == sep)
    && forall k :: lo <= k < hi ==> arg[k] != sep
  }

  /** `s[x..y]` is `s` without the white space at its ends. */
  ghost predicate Core(s: string, x: nat, y: nat) {
    && x <= y <= |s| && (forall k :: 0 <= k < x || y <= k < |s| ==> IsSpace(s[k]))
    && (x < y ==> !IsSpace(s[x]) && !IsSpace(s[y - 1]))
  }

  /** The name is an item of the comma-separated list, without the white space around it. */
  ghost predicate Lists(arg: string, name: string) {
    exists lo: nat, hi: nat, x: nat, y: nat ::
      Segment(arg, ',', lo, hi) && Core(arg[lo..hi], x, y) && name == arg[lo..hi][x..y]
  }

  lemma {:induction false} FirstSegment(s: string, sep: char) returns (hi: nat)
    ensures Segment(s, sep, 0, hi) && Split(s, sep)[0] == s[..hi]
  {
    if s == "" || s[0] == sep {
      hi := 0;
    } else {
      hi := FirstSegment(s[1..], sep);
      hi := hi + 1;
      assert s[..hi] == [s[0]] + s[1..][..hi - 1];
    }
  }

  /** Splitting gives the segments. */
  lemma {:induction false} SplitIff(s: string, sep: char, part: string)
    ensures part in Split(s, sep)[1..] <==> HasLater(s, sep, part)
  {
    if s != "" {
      var rest := Split(s[1..], sep);
      SplitIff(s[1..], sep, part);
      var k := FirstSegment(s[1..], sep);
      assert rest == [rest[0]] + rest[1..];
      assert Split(s, sep)[1..] == if s[0] == sep then rest else rest[1..];
      LaterSegmentIff(s, sep, k, part);
    }
  }

  ghost predicate HasLater(s: string, sep: char, part: string) {
    exists lo: nat, hi: nat :: LaterSegment(s, sep, lo, hi, part)
  }

  lemma LaterSegmentIff(s: string, sep: char, k: nat, part: string)
    requires s != "" && Segment(s[1..], sep, 0, k)
    ensures HasLater(s, sep, part) <==> (s[0] == sep && part == s[1..][..k]) || HasLater(s[1..], sep, part)
  {
    var t := s[1..];
    if s[0] == sep && part == t[..k] {
      assert part == t[0..k];
      SegmentShifts(s, sep, 0, k, part);
    }
    if HasLater(t, sep, part) {
      var lo: nat, hi: nat :| LaterSegment(t, sep, lo, hi, part);
      SegmentShifts(s, sep, lo, hi, part);
    }
    if HasLater(s, sep, part) {
      var lo: nat, hi: nat :| LaterSegment(s, sep, lo, hi, part);
      assert t[lo - 1..hi - 1] == part;
      SegmentUnshifts(s, sep, lo, hi);
      if lo == 1 { SameFirstSegment(t, sep, hi - 1, k); } else { assert LaterSegment(t, sep, lo - 1, hi - 1, part); }
    }
  }

  lemma SegmentUnshifts(s: string, sep: char, lo: nat, hi: nat)
    requires 0 < lo && Segment(s, sep, lo, hi)
    ensures Segment(s[1..], sep, lo - 1, hi - 1) && (lo == 1 ==> s[0] == sep)
  {
  }

  ghost predicate LaterSegment(s: string, sep: char, lo: nat, hi: nat, part: string) {
    0 < lo && Segment(s, sep, lo, hi) && part == s[lo..hi]
  }

  lemma SegmentShifts(s: string, sep: char, lo: nat, hi: nat, part: string)
    requires s != "" && Segment(s[1..], sep, lo, hi) && part == s[1..][lo..hi] && (lo == 0 ==> s[0] == sep)
    ensures LaterSegment(s, sep, lo + 1, hi + 1, part)
  {
  }

  lemma SameFirstSegment(s: string, sep: char, a: nat, b: nat)
    requires Segment(s, sep, 0, a) && Segment(s, sep, 0, b)
    ensures a == b
  {
  }

  lemma SliceOfTail(s: string, x: nat, y: nat)
    requires 1 <= x <= y <= |s|
    ensures s[1..][x - 1..y - 1] == s[x..y]
  {
  }

  lemma {:induction false} TrimIff(s: string, x: nat, y: nat)
    requires Core(s, x, y)
    ensures Trim(s) == s[x..y]
    decreases |s|
  {
    if s != "" && IsSpace(s[0]) {
      if x == 0 {
        TrimIff(s[1..], 0, 0);
      } else {
        TrimIff(s[1..], x - 1, y - 1);
        SliceOfTail(s, x, y);
      }
    } else if s != "" && IsSpace(s[|s| - 1]) {
      TrimIff(s[..|s| - 1], x, y);
      assert s[..|s| - 1][x..y] == s[x..y];
    }
  }

  lemma {:induction false} HasCore(s: string) returns (x: nat, y: nat)
    ensures Core(s, x, y)
    decreases |s|
  {
    if s != "" && IsSpace(s[0]) {
      x, y := HasCore(s[1..]);
      x, y := x + 1, y + 1;
      forall k | 0 <= k < x || y <= k < |s| ensures IsSpace(s[k]) {
        if k > 0 { assert s[k] == s[1..][k - 1]; }
      }
    } else if s != "" && IsSpace(s[|s| - 1]) {
      x, y := HasCore(s[..|s| - 1]);
      forall k | 0 <= k < x || y <= k < |s| ensures IsSpace(s[k]) {
        if k < |s| - 1 { assert s[k] == s[..|s| - 1][k]; }
      }
    } else {
      x, y := 0, |s|;
    }
  }

  lemma {:induction false} TrimmedIff(parts: seq<string>, name: string)
    ensures name in Trimmed(parts) <==> exists part :: part in parts && name == Trim(part)
  {
    if parts != [] {
      TrimmedIff(parts[1..], name);
      assert parts[0] in parts && forall q :: q in parts <==> q == parts[0] || q in parts[1..];
    }
  }

  lemma PartIsSegment(arg: string, sep: char, part: string)
    ensures part in Split(arg, sep) <==> exists lo: nat, hi: nat :: Segment(arg, sep, lo, hi) && part == arg[lo..hi]
  {
    var parts := Split(arg, sep);
    var k := FirstSegment(arg, sep);
    SplitIff(arg, sep, part);
    assert part in parts <==> part == parts[0] || part in parts[1..] by { assert parts == [parts[0]] + parts[1..]; }
    if part == parts[0] { assert Segment(arg, sep, 0, k) && part == arg[0..k]; }
    if part in parts[1..] {
      var lo: nat, hi: nat :| LaterSegment(arg, sep, lo, hi, part);
      assert Segment(arg, sep, lo, hi) && part == arg[lo..hi];
    }
    forall lo: nat, hi: nat | Segment(arg, sep, lo, hi) && part == arg[lo..hi] ensures part in parts {
      if lo == 0 { SameFirstSegment(arg, sep, hi, k); } else { assert LaterSegment(arg, sep, lo, hi, part); }
    }
  }

  /** Splitting at the commas and trimming gives the items of the list. */
  lemma ItemIff(arg: string, name: string)
    ensures name in Items(arg) <==> Lists(arg, name)
  {
    TrimmedIff(Split(arg, ','), name);
    if name in Items(arg) {
      var part :| part in Split(arg, ',') && name == Trim(part);
      PartIsSegment(arg, ',', part);
      var lo: nat, hi: nat :| Segment(arg, ',', lo, hi) && part == arg[lo..hi];
      var x, y := HasCore(part);
      TrimIff(part, x, y);
      assert Segment(arg, ',', lo, hi) && Core(arg[lo..hi], x, y) && name == arg[lo..hi][x..y];
    }
    if Lists(arg, name) {
      var lo: nat, hi: nat, x: nat, y: nat :|
        Segment(arg, ',', lo, hi) && Core(arg[lo..hi], x, y) && name == arg[lo..hi][x..y];
      PartIsSegment(arg, ',', arg[lo..hi]);
      TrimIff(arg[lo..hi], x, y);
    }
  }

  /** Some command of the pattern has the name as its argument, or in its list. */
  ghost predicate InList(s: string, p: Pattern, name: string) { exists arg :: Mentions(s, p, arg) && Lists(arg, name) }

  lemma {:induction false} ListedIff(args: seq<string>, name: string)
    ensures name in Listed(args) <==> exists arg :: arg in args && Lists(arg, name)
  {
    if args != [] {
      ListedIff(args[1..], name);
      ItemIff(args[0], name);
      assert forall a :: a in args <==> a == args[0] || a in args[1..];
    }
  }

  lemma ListIff(s: string, p: Pattern, name: string)
    requires p in PATTERNS
    ensures name in Listed(Matches(s, 0, p)) <==> InList(s, p, name)
  {
    ListedIff(Matches(s, 0, p), name);
    forall arg { MatchesIff(s, p, arg); }
  }

  // ---------------------------------------------------------------- what a text refers to

  ghost predicate NamesTex(s: string, paths: set<Path>, y: Path) {
    exists a :: Mentions(s, Pattern(["input", "include", "subfile"], false), a) && TexFileOf(a, y, paths)
  }

  ghost predicate NamesImage(s: string, paths: set<Path>, y: Path) {
    exists a :: Mentions(s, Pattern(["includegraphics"], true), a) && ImageOf(a, y, paths)
  }

  ghost predicate NamesBib(s: string, paths: set<Path>, y: Path) {
    exists n :: InList(s, Pattern(["bibliography", "addbibresource"], false), n) && BibFileOf(n, y, paths)
  }

  ghost predicate NamesStyle(s: string, y: Path) {
    exists a :: Mentions(s, Pattern(["bibliographystyle"], false), a) && LocalFileOf(a, ".bst", y)
  }

  ghost predicate NamesPackage(s: string, y: Path) {
    exists n :: InList(s, Pattern(["usepackage", "RequirePackage"], true), n) && LocalFileOf(n, ".sty", y)
  }

  ghost predicate NamesClass(s: string, y: Path) {
    || (exists a :: Mentions(s, Pattern(["documentclass"], true), a) && LocalFileOf(a, ".cls", y))
    || (exists a :: Mentions(s, Pattern(["LoadClass"], true), a) && LocalFileOf(a, ".cls", y))
  }

  /** Some command of the text names the path. */
  ghost predicate NamedIn(s: string, paths: set<Path>, y: Path) {
    || NamesTex(s, paths, y) || NamesImage(s, paths, y) || NamesBib(s, paths, y)
    || NamesStyle(s, y) || NamesPackage(s, y) || NamesClass(s, y)
  }

  lemma TexCandidates(s: string, paths: set<Path>, y: Path)
    requires y in paths
    ensures y in ResolveAll(Tex, Matches(s, 0, INPUT), paths) <==> NamesTex(s, paths, y)
  {
    forall a { MatchesIff(s, INPUT, a); }
    forall a ensures y in ResolveAs(Tex, a, paths) <==> TexFileOf(a, y, paths) { assert a + "" == a; }
  }

  lemma ImageCandidates(s: string, paths: set<Path>, y: Path)
    requires y in paths
    ensures y in ResolveAll(Graphics, Matches(s, 0, GRAPHICS), paths) <==> NamesImage(s, paths, y)
  {
    forall a { MatchesIff(s, GRAPHICS, a); }
    forall e ensures e in IMAGE_EXTS <==> ImageExtension(e) {}
  }

  lemma BibCandidates(s: string, paths: set<Path>, y: Path)
    requires y in paths
    ensures y in ResolveAll(Bibliography, Listed(Matches(s, 0, BIB)), paths) <==> NamesBib(s, paths, y)
  {
    forall n { ListIff(s, BIB, n); }
    forall n ensures y in ResolveAs(Bibliography, n, paths) <==> BibFileOf(n, y, paths) { EndsIff(n, ".bib"); }
  }

  lemma LocalIff(name: string, ext: string, paths: set<Path>, y: Path)
    requires y in paths
    ensures y in ResolveAs(Local(ext), name, paths) <==> LocalFileOf(name, ext, y)
  {
    EndsIff(name, ext);
  }

  lemma StyleCandidates(s: string, paths: set<Path>, y: Path)
    requires y in paths
    ensures y in ResolveAll(Local(".bst"), Matches(s, 0, BIBSTYLE), paths) <==> NamesStyle(s, y)
  {
    forall a { MatchesIff(s, BIBSTYLE, a); }
    forall a ensures y in ResolveAs(Local(".bst"), a, paths) <==> LocalFileOf(a, ".bst", y) {
      LocalIff(a, ".bst", paths, y);
    }
  }

  lemma PackageCandidates(s: string, paths: set<Path>, y: Path)
    requires y in paths
    ensures y in ResolveAll(Local(".sty"), Listed(Matches(s, 0, USEPACKAGE)), paths) <==> NamesPackage(s, y)
  {
    forall n { ListIff(s, USEPACKAGE, n); }
    forall n ensures y in ResolveAs(Local(".sty"), n, paths) <==> LocalFileOf(n, ".sty", y) {
      LocalIff(n, ".sty", paths, y);
    }
  }

  lemma ClassCandidates(s: string, paths: set<Path>, y: Path)
    requires y in paths
    ensures y in ResolveAll(Local(".cls"), Matches(s, 0, DOCUMENTCLASS), paths)
                 + ResolveAll(Local(".cls"), Matches(s, 0, LOADCLASS), paths)
            <==> NamesClass(s, y)
  {
    forall a { MatchesIff(s, DOCUMENTCLASS, a); }
    forall a { MatchesIff(s, LOADCLASS, a); }
    forall a ensures y in ResolveAs(Local(".cls"), a, paths) <==> LocalFileOf(a, ".cls", y) {
      LocalIff(a, ".cls", paths, y);
    }
  }

  /** The candidates of a text are exactly the existing paths that its commands name. */
  lemma CandidatesIff(s: string, paths: set<Path>, y: Path)
    ensures y in Checked(s, paths) || y in Unchecked(s, paths) <==> y in paths && NamedIn(s, paths, y)
  {
    if y in paths {
      TexCandidates(s, paths, y);
      ImageCandidates(s, paths, y);
      BibCandidates(s, paths, y);
      StyleCandidates(s, paths, y);
      PackageCandidates(s, paths, y);
      ClassCandidates(s, paths, y);
    }
  }

  // ---------------------------------------------------------------- the stateful \makeindex test

  /** The first place at or behind `i` where the word stands. */
  function FindFrom(s: string, i: nat, word: string): (j: Option<nat>)
    requires word != ""
    ensures j.Some? ==> i <= j.value < |s| && StartsAt(s, j.value, word)
    ensures forall k: nat :: i <= k && StartsAt(s, k, word) ==> j.Some? && j.value <= k
    decreases |s| - i
  {
    if i >= |s| then None else if StartsAt(s, i, word) then Some(i) else FindFrom(s, i + 1, word)
  }

  /** `test` of a global expression: it searches from the remembered index, remembers the end of a
      match, and forgets it on a miss. */
  function Test(s: string, lastIndex: nat): (bool, nat) {
    match FindFrom(s, lastIndex, MAKEINDEX)
    case None => (false, 0)
    case Some(j) => (true, j + |MAKEINDEX|)
  }

  /** The text mentions the command. */
  ghost predicate UsesIndex(s: string) { exists j: nat :: StartsAt(s, j, "\\makeindex") }

  // ---------------------------------------------------------------- the worklist

  /** The project: paths in order of insertion, and what is stored under each. */
  datatype Project = Project(order: seq<Path>, files: map<Path, File>)

  ghost predicate WellFormed(p: Project) { forall x :: x in p.order <==> x in p.files }

  function IndexFiles(order: seq<Path>): (r: seq<Path>)
    ensures forall x :: x in r <==> x in order && (EndsWith(x, ".ist") || EndsWith(x, ".idx"))
  {
    if order == [] then []
    else
      assert forall x :: x in order <==> x == order[0] || x in order[1..];
      (if EndsWith(order[0], ".ist") || EndsWith(order[0], ".idx") then [order[0]] else []) + IndexFiles(order[1..])
  }

  function Unused(candidates: seq<Path>, used: set<Path>): (r: seq<Path>)
    ensures forall c :: c in r <==> c in candidates && c !in used
  {
    if candidates == [] then []
    else
      assert forall c :: c in candidates <==> c == candidates[0] || c in candidates[1..];
      (if candidates[0] in used then [] else [candidates[0]]) + Unused(candidates[1..], used)
  }

  function Pushed(p: Project, s: string, used: set<Path>, hit: bool): seq<Path> {
    Unused(Checked(s, p.files.Keys), used) + Unchecked(s, p.files.Keys) + if hit then IndexFiles(p.order) else []
  }

  /** The used files and the remembered index after the worklist has run dry. */
  function Walk(p: Project, queue: seq<Path>, used: set<Path>, lastIndex: nat): (set<Path>, nat)
    decreases p.files.Keys - used, |queue|
  {
    if queue == [] then (used, lastIndex)
    else
      var cur, rest := queue[0], queue[1..];
      if cur in used || cur !in p.files then Walk(p, rest, used, lastIndex)
      else if p.files[cur].binary then Walk(p, rest, used + {cur}, lastIndex)
      else
        var (hit, last) := Test(p.files[cur].content, lastIndex);
        Walk(p, rest + Pushed(p, p.files[cur].content, used + {cur}, hit), used + {cur}, last)
  }

  function BuildMap(files: seq<File>): (p: Project)
    ensures WellFormed(p)
  {
    if files == [] then Project([], map[])
    else
      var f, p := files[|files| - 1], BuildMap(files[..|files| - 1]);
      Project(if f.path in p.files then p.order else p.order + [f.path], p.files[f.path := f])
  }

  /** The last of the files with the path `x` is at `i`. */
  ghost predicate LastWithPath(files: seq<File>, x: Path, i: nat) {
    i < |files| && files[i].path == x && forall j :: i < j < |files| ==> files[j].path != x
  }

  /** The last file with a path is the one that counts. */
  lemma {:induction false} LastFileCounts(files: seq<File>, x: Path, i: nat)
    requires LastWithPath(files, x, i)
    ensures x in BuildMap(files).files && BuildMap(files).files[x] == files[i]
  {
    var n := |files| - 1;
    if i < n { LastFileCounts(files[..n], x, i); }
  }

  lemma {:induction false} MappedPathIsListed(files: seq<File>, x: Path) returns (i: nat)
    requires x in BuildMap(files).files
    ensures LastWithPath(files, x, i)
  {
    var n := |files| - 1;
    if files[n].path == x { i := n; } else { i := MappedPathIsListed(files[..n], x); }
  }

  class Resolver {
    var lastIndex: nat

    constructor ()
      ensures lastIndex == 0
    {
      lastIndex := 0;
    }

    method ResolveUsedFiles(files: seq<File>, mainFile: Path) returns (used: set<Path>)
      modifies this
      ensures (used, lastIndex) == Walk(BuildMap(files), [mainFile], {}, old(lastIndex))
      ensures old(lastIndex) == 0 ==> IsLeast(BuildMap(files), mainFile, used)
    {
      FreshCallIsLeast(BuildMap(files), mainFile);
      var p := CollectFiles(files);
      used := {};
      var queue := [mainFile];
      while |queue| > 0
        invariant Walk(p, queue, used, lastIndex) == Walk(p, [mainFile], {}, old(lastIndex))
        decreases p.files.Keys - used, |queue|
      {
        var current := queue[0];
        queue := queue[1..];
        if current in used || current !in p.files { continue; }
        used := used + {current};
        if p.files[current].binary { continue; }
        queue := PushReferences(p, queue, p.files[current].content, used);
      }
    }

    /** The body of the loop: test for `\makeindex` and queue what the file refers to. */
    method PushReferences(p: Project, queue: seq<Path>, content: string, used: set<Path>) returns (q: seq<Path>)
      modifies this
      ensures var (hit, last) := Test(content, old(lastIndex));
              lastIndex == last && q == queue + Pushed(p, content, used, hit)
    {
      q := PushUnused(queue, Checked(content, p.files.Keys), used);
      q := q + Unchecked(content, p.files.Keys);
      var (hit, last) := Test(content, lastIndex);
      lastIndex := last;
      var index := if hit then IndexFiles(p.order) else [];
      q := q + index;
      ConcatAssociates(queue, Unused(Checked(content, p.files.Keys), used), Unchecked(content, p.files.Keys));
      ConcatAssociates(queue, Unused(Checked(content, p.files.Keys), used) + Unchecked(content, p.files.Keys), index);
    }

    method CollectFiles(files: seq<File>) returns (p: Project)
      ensures p == BuildMap(files)
    {
      var order: seq<Path>, table := [], map[];
      for i := 0 to |files|
        invariant Project(order, table) == BuildMap(files[..i])
      {
        assert files[..i + 1][..i] == files[..i];
        if files[i].path !in table { order := order + [files[i].path]; }
        table := table[files[i].path := files[i]];
      }
      assert files[..|files|] == files;
      return Project(order, table);
    }

    method PushUnused(queue: seq<Path>, candidates: seq<Path>, used: set<Path>) returns (q: seq<Path>)
      ensures q == queue + Unused(candidates, used)
    {
      q := queue;
      for i := 0 to |candidates|
        invariant q + Unused(candidates[i..], used) == queue + Unused(candidates, used)
      {
        assert candidates[i..][0] == candidates[i] && candidates[i..][1..] == candidates[i + 1..];
        ConcatAssociates(q, if candidates[i] in used then [] else [candidates[i]], Unused(candidates[i + 1..], used));
        if candidates[i] !in used { q := q + [candidates[i]]; }
      }
    }
  }

  // ---------------------------------------------------------------- least closed sets

  ghost predicate TextFile(p: Project, x: Path) { x in p.files && !p.files[x].binary }

  ghost predicate IndexName(y: Path) { Ends(y, ".ist") || Ends(y, ".idx") }

  /** Which file names which, which files mention `\makeindex`, and what these use besides. */
  datatype Graph = Graph(named: iset<(Path, Path)>, indexers: iset<Path>, index: iset<Path>)

  ghost function GraphOf(p: Project): Graph {
    Graph(iset x, y | TextFile(p, x) && y in p.files && NamedIn(p.files[x].content, p.files.Keys, y) :: (x, y),
          iset x | TextFile(p, x) && UsesIndex(p.files[x].content),
          iset y | y in p.files && IndexName(y))
  }

  /** What a text file refers to, `\makeindex` included. */
  ghost predicate RefersTo(g: Graph, x: Path, y: Path) { (x, y) in g.named || (x in g.indexers && y in g.index) }

  ghost predicate Closed(g: Graph, s: set<Path>) {
    forall x, y :: x in s && RefersTo(g, x, y) ==> y in s
  }

  /** The least set of existing paths that contains the main file and is closed under references. */
  ghost predicate IsLeast(p: Project, main: Path, u: set<Path>) {
    && u <= p.files.Keys && (main in p.files ==> main in u) && Closed(GraphOf(p), u)
    && forall s :: (main in p.files ==> main in s) && Closed(GraphOf(p), s) ==> u <= s
  }

  /** Closed under references, but for the index files that the files in `exempt` ask for. */
  ghost predicate ClosedBut(g: Graph, s: set<Path>, exempt: set<Path>) {
    forall x, y :: x in s && RefersTo(g, x, y) && (x in exempt ==> (x, y) in g.named) ==> y in s
  }

  /** The graph is the one that the worklist follows. */
  ghost predicate Fits(g: Graph, p: Project) {
    && (forall x, y :: (x, y) in g.named
          <==> TextFile(p, x) && (y in Checked(p.files[x].content, p.files.Keys)
                                  || y in Unchecked(p.files[x].content, p.files.Keys)))
    && (forall x :: x in g.indexers <==> TextFile(p, x) && FindFrom(p.files[x].content, 0, MAKEINDEX).Some?)
    && (forall y :: y in g.index <==> y in IndexFiles(p.order))
  }

  lemma GraphFits(p: Project)
    requires WellFormed(p)
    ensures Fits(GraphOf(p), p)
  {
    var g := GraphOf(p);
    forall x, y | TextFile(p, x) { CandidatesIff(p.files[x].content, p.files.Keys, y); }
    forall y ensures IndexName(y) <==> EndsWith(y, ".ist") || EndsWith(y, ".idx") {
      EndsIff(y, ".ist");
      EndsIff(y, ".idx");
    }
    assert forall x :: x in g.indexers <==> TextFile(p, x) && UsesIndex(p.files[x].content);
  }

  /** Whatever the remembered index, nothing outside a closed set is collected. */
  lemma {:induction false} WalkStaysInside(
    g: Graph, p: Project, queue: seq<Path>, used: set<Path>, lastIndex: nat, s: set<Path>, exempt: set<Path>)
    requires Fits(g, p) && ClosedBut(g, s, exempt) && exempt <= used <= s && used <= p.files.Keys
    requires forall x :: x in queue && x in p.files ==> x in s
    ensures used <= Walk(p, queue, used, lastIndex).0 <= s && Walk(p, queue, used, lastIndex).0 <= p.files.Keys
    decreases p.files.Keys - used, |queue|
  {
    if queue != [] {
      var cur, rest := queue[0], queue[1..];
      if cur in used || cur !in p.files {
        WalkStaysInside(g, p, rest, used, lastIndex, s, exempt);
      } else if p.files[cur].binary {
        WalkStaysInside(g, p, rest, used + {cur}, lastIndex, s, exempt);
      } else {
        var content := p.files[cur].content;
        var (hit, last) := Test(content, lastIndex);
        var next := rest + Pushed(p, content, used + {cur}, hit);
        forall x | x in next && x in p.files ensures x in s {
          if x !in rest { assert RefersTo(g, cur, x); }
        }
        WalkStaysInside(g, p, next, used + {cur}, last, s, exempt);
      }
    }
  }

  ghost predicate Awaits(queue: seq<Path>, used: set<Path>, x: Path) { x in used || x in queue }

  /** The references of `x` are used or waiting; its index files too, unless `x` is exempt. */
  ghost predicate Served(g: Graph, queue: seq<Path>, used: set<Path>, exempt: set<Path>, x: Path) {
    forall y :: RefersTo(g, x, y) && (x in exempt ==> (x, y) in g.named) ==> Awaits(queue, used, y)
  }

  /** While the expression remembers an index, the index files are already on their way. */
  ghost predicate Primed(g: Graph, queue: seq<Path>, used: set<Path>, lastIndex: nat) {
    lastIndex == 0 || forall y :: y in g.index ==> Awaits(queue, used, y)
  }

  lemma {:induction false} WalkCloses(
    g: Graph, p: Project, queue: seq<Path>, used: set<Path>, lastIndex: nat, exempt: set<Path>)
    requires Fits(g, p) && WellFormed(p) && used <= p.files.Keys && Primed(g, queue, used, lastIndex)
    requires forall x :: x in used ==> Served(g, queue, used, exempt, x)
    ensures var u := Walk(p, queue, used, lastIndex).0;
            && used <= u && (forall x :: x in queue && x in p.files ==> x in u)
            && forall x :: x in u ==> Served(g, [], u, exempt, x)
    decreases p.files.Keys - used, |queue|
  {
    if queue != [] {
      var cur, rest := queue[0], queue[1..];
      assert forall x :: x in queue <==> x == cur || x in rest;
      if cur in used || cur !in p.files {
        forall x | x in used ensures Served(g, rest, used, exempt, x) {
          assert Served(g, queue, used, exempt, x);
          forall y | RefersTo(g, x, y) ensures y in p.files { }
        }
        forall y | y in g.index ensures y in p.files { }
        WalkCloses(g, p, rest, used, lastIndex, exempt);
      } else {
        WalkClosesStep(g, p, queue, used, lastIndex, exempt);
      }
    }
  }

  lemma {:induction false} WalkClosesStep(
    g: Graph, p: Project, queue: seq<Path>, used: set<Path>, lastIndex: nat, exempt: set<Path>)
    requires Fits(g, p) && WellFormed(p) && used <= p.files.Keys && Primed(g, queue, used, lastIndex)
    requires forall x :: x in used ==> Served(g, queue, used, exempt, x)
    requires queue != [] && queue[0] !in used && queue[0] in p.files
    ensures var u := Walk(p, queue, used, lastIndex).0;
            && used <= u && (forall x :: x in queue && x in p.files ==> x in u)
            && forall x :: x in u ==> Served(g, [], u, exempt, x)
    decreases p.files.Keys - used, |queue|, 0
  {
    var cur, rest, used' := queue[0], queue[1..], used + {queue[0]};
    var content := p.files[cur].content;
    var (hit, last) := if p.files[cur].binary then (false, lastIndex) else Test(content, lastIndex);
    var next := if p.files[cur].binary then rest else rest + Pushed(p, content, used', hit);
    assert forall x :: Awaits(queue, used, x) ==> Awaits(next, used', x);
    forall x | x in used' ensures Served(g, next, used', exempt, x) {
      if x != cur {
        assert Served(g, queue, used, exempt, x);
      } else if !p.files[cur].binary {
        forall y | RefersTo(g, x, y) && (x in exempt ==> (x, y) in g.named) ensures Awaits(next, used', y) {
          if (x, y) !in g.named && lastIndex != 0 { assert Awaits(queue, used, y); }
        }
      }
    }
    assert Primed(g, next, used', last);
    WalkCloses(g, p, next, used', last, exempt);
    assert cur in Walk(p, next, used', last).0;
  }

  /** The first turn of the loop on a main file that is text. */
  lemma FirstTurn(p: Project, main: Path, lastIndex: nat)
    requires TextFile(p, main)
    ensures var (hit, last) := Test(p.files[main].content, lastIndex);
            Walk(p, [main], {}, lastIndex) == Walk(p, Pushed(p, p.files[main].content, {main}, hit), {main}, last)
  {
    var (hit, last) := Test(p.files[main].content, lastIndex);
    var none: set<Path>, pushed := {}, Pushed(p, p.files[main].content, {main}, hit);
    assert [main][1..] == [] && none + {main} == {main} && [] + pushed == pushed;
  }

  lemma NoTextNoTurn(p: Project, main: Path, lastIndex: nat)
    requires !TextFile(p, main)
    ensures Walk(p, [main], {}, lastIndex).0 == if main in p.files then {main} else {}
  {
    assert [main][1..] == [];
  }

  /** The main file mentions `\makeindex`, but only before the index remembered from an earlier call. */
  ghost predicate StaleMiss(p: Project, main: Path, lastIndex: nat) {
    && TextFile(p, main) && UsesIndex(p.files[main].content)
    && forall j: nat :: lastIndex <= j ==> !StartsAt(p.files[main].content, j, "\\makeindex")
  }

  /** The files whose `\makeindex` a call overlooks: the main file's, after a stale miss. */
  ghost function Overlooked(p: Project, main: Path, lastIndex: nat): set<Path> {
    if StaleMiss(p, main, lastIndex) then {main} else {}
  }

  /** A call collects the main file and what its files refer to, save for what it overlooks. */
  lemma CallCloses(p: Project, main: Path, lastIndex: nat)
    requires WellFormed(p) && TextFile(p, main)
    ensures var u := Walk(p, [main], {}, lastIndex).0;
            main in u && u <= p.files.Keys && ClosedBut(GraphOf(p), u, Overlooked(p, main, lastIndex))
  {
    var g := GraphOf(p);
    GraphFits(p);
    var content, exempt := p.files[main].content, Overlooked(p, main, lastIndex);
    var (hit, last) := Test(content, lastIndex);
    var next := Pushed(p, content, {main}, hit);
    FirstTurn(p, main, lastIndex);
    assert Served(g, next, {main}, exempt, main);
    WalkCloses(g, p, next, {main}, last, exempt);
    WalkStaysInside(g, p, next, {main}, last, p.files.Keys, {});
    var u := Walk(p, next, {main}, last).0;
    forall x, y | x in u && RefersTo(g, x, y) && (x in exempt ==> (x, y) in g.named) ensures y in u {
      assert Served(g, [], u, exempt, x);
    }
  }

  /** And nothing outside any set with these properties. */
  lemma CallStaysInside(p: Project, main: Path, lastIndex: nat, s: set<Path>)
    requires WellFormed(p) && TextFile(p, main) && main in s && ClosedBut(GraphOf(p), s, Overlooked(p, main, lastIndex))
    ensures Walk(p, [main], {}, lastIndex).0 <= s
  {
    var g := GraphOf(p);
    GraphFits(p);
    var content, exempt := p.files[main].content, Overlooked(p, main, lastIndex);
    var (hit, last) := Test(content, lastIndex);
    var next := Pushed(p, content, {main}, hit);
    FirstTurn(p, main, lastIndex);
    forall x | x in next ensures x in s {
      assert RefersTo(g, main, x) && (main in exempt ==> (main, x) in g.named);
    }
    WalkStaysInside(g, p, next, {main}, last, s, exempt);
  }

  /** The file is used for another reason than the main file's own `\makeindex`: it lies in every set
      that contains the main file and is closed when that is ignored. */
  ghost predicate UsedAnyway(p: Project, main: Path, y: Path) {
    forall s :: main in s && ClosedBut(GraphOf(p), s, {main}) ==> y in s
  }

  /** A call that starts with a forgotten index returns exactly the least closed set, whatever cycles
      and duplicates the project has. */
  lemma FreshCallIsLeast(p: Project, main: Path)
    requires WellFormed(p)
    ensures IsLeast(p, main, Walk(p, [main], {}, 0).0)
  {
    CallIsLeastIff(p, main, 0);
  }

  /** What any call returns is the least closed set exactly when the remembered index does not hide the
      main file's `\makeindex`, or every index file is used anyway. */
  lemma CallIsLeastIff(p: Project, main: Path, lastIndex: nat)
    requires WellFormed(p)
    ensures IsLeast(p, main, Walk(p, [main], {}, lastIndex).0)
            <==> (StaleMiss(p, main, lastIndex) ==> forall y :: y in GraphOf(p).index ==> UsedAnyway(p, main, y))
  {
    if !TextFile(p, main) {
      NoTextNoTurn(p, main, lastIndex);
    } else if StaleMiss(p, main, lastIndex) {
      StaleCallIsLeastIff(p, main, lastIndex);
    } else {
      CallCloses(p, main, lastIndex);
      forall s | main in s && Closed(GraphOf(p), s) ensures Walk(p, [main], {}, lastIndex).0 <= s {
        CallStaysInside(p, main, lastIndex, s);
      }
    }
  }

  lemma StaleCallIsLeastIff(p: Project, main: Path, lastIndex: nat)
    requires WellFormed(p) && StaleMiss(p, main, lastIndex)
    ensures IsLeast(p, main, Walk(p, [main], {}, lastIndex).0)
            <==> forall y :: y in GraphOf(p).index ==> UsedAnyway(p, main, y)
  {
    var u := Walk(p, [main], {}, lastIndex).0;
    CallCloses(p, main, lastIndex);
    forall s | main in s && ClosedBut(GraphOf(p), s, {main}) ensures u <= s { CallStaysInside(p, main, lastIndex, s); }
    assert forall y :: y in u <==> UsedAnyway(p, main, y);
    forall y | y in GraphOf(p).index ensures RefersTo(GraphOf(p), main, y) {}
    if forall y :: y in GraphOf(p).index ==> UsedAnyway(p, main, y) {
      forall x, y | x in u && RefersTo(GraphOf(p), x, y) ensures y in u {}
    }
  }

  // ---------------------------------------------------------------- the remembered index does lose files

  lemma {:induction false} NoGroupNoMatch(s: string, i: nat, p: Pattern)
    requires i <= |s| && '{' !in s
    ensures Matches(s, i, p) == []
    decreases |s| - i
  {
    if i < |s| { NoGroupNoMatch(s, i + 1, p); }
  }

  lemma NoGroupNoReference(s: string, paths: set<Path>)
    requires '{' !in s
    ensures Checked(s, paths) == [] && Unchecked(s, paths) == []
  {
    NoGroupNoMatch(s, 0, INPUT);
    NoGroupNoMatch(s, 0, GRAPHICS);
    NoGroupNoMatch(s, 0, BIB);
    NoGroupNoMatch(s, 0, BIBSTYLE);
    NoGroupNoMatch(s, 0, USEPACKAGE);
    NoGroupNoMatch(s, 0, DOCUMENTCLASS);
    NoGroupNoMatch(s, 0, LOADCLASS);
  }

  /** A lone `\makeindex` is found from the start, and not again from where its match ended. */
  lemma LoneMakeIndex()
    ensures Test(MAKEINDEX, 0) == (true, 10) && Test(MAKEINDEX, 10) == (false, 0) && '{' !in MAKEINDEX
  {
    assert StartsAt(MAKEINDEX, 0, MAKEINDEX);
  }

  /** Two projects with the same main file, resolved in turn, its `\makeindex` ending at `end`: the first
      call leaves `end` behind, and the second misses the index style it would have found on its own.
      `LoneMakeIndex` gives such a content. */
  lemma EarlierCallHidesIndexFiles(content: string, end: nat, m: Path, x: Path)
    requires '{' !in content && Test(content, 0) == (true, end) && Test(content, end) == (false, 0)
    requires m != x && EndsWith(x, ".ist") && !EndsWith(m, ".ist") && !EndsWith(m, ".idx")
    ensures var main := File(m, content, false);
            var first := Project([m], map[m := main]);
            var second := Project([m, x], map[m := main, x := File(x, "", false)]);
            && Walk(first, [m], {}, 0) == ({m}, end)
            && Walk(second, [m], {}, end).0 == {m}
            && x in Walk(second, [m], {}, 0).0
  {
    var main := File(m, content, false);
    var first := Project([m], map[m := main]);
    var second := Project([m, x], map[m := main, x := File(x, "", false)]);
    OnlyMainIsWalked(first, m, 0);
    OnlyMainIsWalked(second, m, end);
    FreshCallIsLeast(second, m);
    assert x in second.order && x in IndexFiles(second.order);
    GraphFits(second);
    assert RefersTo(GraphOf(second), m, x);
  }

  /** A main file without brace groups, searched from `lastIndex`, that queues no index file. */
  lemma OnlyMainIsWalked(p: Project, m: Path, lastIndex: nat)
    requires TextFile(p, m) && '{' !in p.files[m].content
    requires Test(p.files[m].content, lastIndex).0 ==> IndexFiles(p.order) == []
    ensures Walk(p, [m], {}, lastIndex) == ({m}, Test(p.files[m].content, lastIndex).1)
  {
    var content := p.files[m].content;
    var (hit, last) := Test(content, lastIndex);
    NoGroupNoReference(content, p.files.Keys);
    assert Pushed(p, content, {} + {m}, hit) == [];
    assert [m][1..] + [] == [];
    var none: set<Path> := {};
    assert none + {m} == {m};
    assert Walk(p, [], {m}, last) == ({m}, last);
  }
}
