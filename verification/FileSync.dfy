/** Writing project files to disk with a content-hash cache, against writing every file. The hash, the
    resolution of a path below the project directory, and the fate of each write are parameters. */
module FileSync {
  import opened Common

  type Bytes = string
  type Path = string
  type Project = string
  type Digest = int

  const FILE_HASH_CACHE_MAX := 50_000

  // ---------------------------------------------------------------- generated files

  const GENERATED_EXTS: set<string> := {
    ".aux", ".log", ".fls", ".fdb_latexmk", ".flowtex-build-manifest.json", ".synctex.gz", ".synctex", ".bbl",
    ".blg", ".out", ".toc", ".lof", ".lot", ".nav", ".snm", ".vrb", ".idx", ".ind", ".ilg", ".glo", ".gls",
    ".glg", ".cb", ".cb2", ".bcf", ".run.xml", ".xdv" }

  function BaseName(path: Path): string {
    var i := LastSlash(path);
    if i.None? then path
    else if i.value + 1 == |path| && |path| > 1 then BaseName(path[..i.value])
    else path[i.value + 1..]
  }

  function LastSlash(path: Path): (i: Option<nat>)
    ensures i.Some? ==> i.value < |path| && path[i.value] == '/'
    ensures forall k :: 0 <= k < |path| && path[k] == '/' ==> i.Some? && k <= i.value
  {
    if path == "" then None
    else if path[|path| - 1] == '/' then Some(|path| - 1)
    else LastSlash(path[..|path| - 1])
  }

  /** From the first dot on, so that compound extensions are seen whole. */
  function FromFirstDot(s: string): string {
    if s == "" || s[0] == '.' then s else FromFirstDot(s[1..])
  }

  /** `path` is a directory part, a name without a dot, an extension from the first dot on, and maybe
      slashes behind it. */
  ghost predicate PathParts(path: Path, dir: string, stem: string, ext: string, slashes: string) {
    && path == dir + stem + ext + slashes && (dir == "" || dir[|dir| - 1] == '/')
    && '/' !in stem && '.' !in stem && '/' !in ext && (ext == "" || ext[0] == '.')
    && stem + ext != "" && forall k :: 0 <= k < |slashes| ==> slashes[k] == '/'
  }

  /** The extensions of the files that a compilation writes. */
  ghost predicate GeneratedExt(ext: string) {
    || ext in {".aux", ".log", ".fls", ".fdb_latexmk", ".flowtex-build-manifest.json", ".synctex.gz", ".synctex"}
    || ext in {".bbl", ".blg", ".out", ".toc", ".lof", ".lot", ".nav", ".snm", ".vrb", ".idx", ".ind", ".ilg"}
    || ext in {".glo", ".gls", ".glg", ".cb", ".cb2", ".bcf", ".run.xml", ".xdv"}
  }

  /** The file name has one of them, in any case. */
  ghost predicate IsGenerated(path: Path) {
    exists dir, stem, ext, slashes :: PathParts(path, dir, stem, ext, slashes) && GeneratedExt(Lower(ext))
  }

  lemma {:induction false} FirstDotOf(stem: string, ext: string)
    requires '.' !in stem && (ext == "" || ext[0] == '.')
    ensures FromFirstDot(stem + ext) == ext
  {
    if stem == "" {
      assert stem + ext == ext;
    } else {
      assert (stem + ext)[1..] == stem[1..] + ext;
      FirstDotOf(stem[1..], ext);
    }
  }

  lemma {:induction false} SplitAtFirstDot(s: string) returns (stem: string)
    ensures s == stem + FromFirstDot(s) && '.' !in stem
    ensures FromFirstDot(s) == "" || FromFirstDot(s)[0] == '.'
  {
    if s == "" || s[0] == '.' {
      stem := "";
    } else {
      var rest := SplitAtFirstDot(s[1..]);
      stem := [s[0]] + rest;
      assert s == [s[0]] + s[1..];
      ConcatAssociates([s[0]], rest, FromFirstDot(s[1..]));
    }
  }

  lemma DropSlash(path: Path)
    requires |path| > 1 && path[|path| - 1] == '/'
    ensures BaseName(path) == BaseName(path[..|path| - 1])
  {
  }

  lemma LastName(path: Path, i: nat)
    requires i < |path| && (i == 0 || path[i - 1] == '/') && forall k :: i <= k < |path| ==> path[k] != '/'
    ensures BaseName(path) == path[i..]
  {
    assert i == 0 ==> path[i..] == path;
  }

  lemma {:induction false} BaseNameOf(dir: string, base: string, slashes: string)
    requires (dir == "" || dir[|dir| - 1] == '/') && base != "" && '/' !in base
    requires forall k :: 0 <= k < |slashes| ==> slashes[k] == '/'
    ensures BaseName(dir + base + slashes) == base
    decreases |slashes|
  {
    var path := dir + base + slashes;
    if slashes != "" {
      DropSlash(path);
      assert path[..|path| - 1] == dir + base + slashes[..|slashes| - 1];
      BaseNameOf(dir, base, slashes[..|slashes| - 1]);
    } else {
      assert path == dir + base;
      LastName(path, |dir|);
    }
  }

  lemma {:induction false} SplitAtBaseName(path: Path) returns (dir: string, slashes: string)
    ensures path == dir + BaseName(path) + slashes && '/' !in BaseName(path)
    ensures dir == "" || dir[|dir| - 1] == '/'
    ensures forall k :: 0 <= k < |slashes| ==> slashes[k] == '/'
    decreases |path|
  {
    var i := LastSlash(path);
    if i.None? {
      dir, slashes := "", "";
    } else if i.value + 1 == |path| && |path| > 1 {
      var rest := path[..i.value];
      dir, slashes := SplitAtBaseName(rest);
      AppendSlash(path, dir, BaseName(rest), slashes);
      slashes := slashes + "/";
    } else {
      dir, slashes := path[..i.value + 1], "";
    }
  }

  lemma AppendSlash(path: Path, dir: string, base: string, slashes: string)
    requires path != "" && path[|path| - 1] == '/' && path[..|path| - 1] == dir + base + slashes
    ensures path == dir + base + (slashes + "/")
  {
    assert path == path[..|path| - 1] + "/";
  }

  lemma GeneratedExtIff(ext: string)
    ensures ext in GENERATED_EXTS <==> GeneratedExt(ext)
  {
  }

  lemma IsGeneratedIff(path: Path)
    ensures Lower(FromFirstDot(BaseName(path))) in GENERATED_EXTS <==> IsGenerated(path)
  {
    var base := BaseName(path);
    GeneratedExtIff(Lower(FromFirstDot(base)));
    if GeneratedExt(Lower(FromFirstDot(base))) {
      var dir, slashes := SplitAtBaseName(path);
      var stem := SplitAtFirstDot(base);
      PartsOf(path, dir, stem, base, slashes);
    }
    if IsGenerated(path) {
      var dir, stem, ext, slashes :| PathParts(path, dir, stem, ext, slashes) && GeneratedExt(Lower(ext));
      ConcatAssociates(dir, stem, ext);
      BaseNameOf(dir, stem + ext, slashes);
      FirstDotOf(stem, ext);
    }
  }

  lemma PartsOf(path: Path, dir: string, stem: string, base: string, slashes: string)
    requires path == dir + base + slashes && (dir == "" || dir[|dir| - 1] == '/') && '/' !in base
    requires forall k :: 0 <= k < |slashes| ==> slashes[k] == '/'
    requires base == stem + FromFirstDot(base) && '.' !in stem && GeneratedExt(Lower(FromFirstDot(base)))
    requires FromFirstDot(base) == "" || FromFirstDot(base)[0] == '.'
    ensures IsGenerated(path)
  {
    var ext := FromFirstDot(base);
    ConcatAssociates(dir, stem, ext);
    assert ext != "";
    assert PathParts(path, dir, stem, ext, slashes);
  }

  predicate Generated(path: Path): (g: bool)
    ensures g <==> IsGenerated(path)
  {
    IsGeneratedIff(path);
    Lower(FromFirstDot(BaseName(path))) in GENERATED_EXTS
  }

  // ---------------------------------------------------------------- the cache

  /** A JavaScript map: `order` lists its keys by insertion. */
  datatype Cache = Cache(order: seq<string>, hashes: map<string, Digest>)

  ghost predicate Distinct(keys: seq<string>) { forall i, j :: 0 <= i < j < |keys| ==> keys[i] != keys[j] }

  ghost predicate WellFormed(c: Cache) {
    && (forall k :: k in c.order <==> k in c.hashes)
    && Distinct(c.order)
  }

  /** The keys of other ids than `p`. */
  function Without(keys: seq<string>, p: Project): (rest: seq<string>)
    ensures forall k :: k in rest <==> k in keys && !HasId(k, p)
  {
    if keys == [] then [] else (if HasId(keys[0], p) then [] else [keys[0]]) + Without(keys[1..], p)
  }

  /** `setFileHash`: a new key at the cap evicts the oldest one; a known key keeps its age. */
  function SetFileHash(c: Cache, key: string, hash: Digest, max: nat): Cache {
    if key in c.hashes then c.(hashes := c.hashes[key := hash])
    else if |c.hashes| >= max && c.order != [] then Cache(c.order[1..] + [key], (c.hashes - {c.order[0]})[key := hash])
    else Cache(c.order + [key], c.hashes[key := hash])
  }

  function Dropped(c: Cache, p: Project): Cache {
    Cache(Without(c.order, p), map k | k in c.hashes && !HasId(k, p) :: c.hashes[k])
  }

  /** Invalidation removes exactly the keys of its project. */
  lemma InvalidateIsExact(c: Cache, p: Project, q: Project, path: Path)
    requires ColonFree(p) && ColonFree(q)
    ensures KeyOf(q, path) in Dropped(c, p).hashes <==> KeyOf(q, path) in c.hashes && q != p
  {
    PrefixIsExact(p, q, path);
  }

  lemma EvictOldest(c: Cache, key: string, hash: Digest)
    requires WellFormed(c) && c.order != [] && key !in c.hashes
    ensures var d := Cache(c.order[1..] + [key], (c.hashes - {c.order[0]})[key := hash]);
            WellFormed(d) && |d.hashes| == |c.hashes|
  {
    var d := Cache(c.order[1..] + [key], (c.hashes - {c.order[0]})[key := hash]);
    assert c.order[0] in c.order && c.order[0] !in c.order[1..];
    assert forall k :: k in c.order <==> k == c.order[0] || k in c.order[1..];
    assert Distinct(c.order[1..]) && key !in c.order[1..];
    assert d.hashes.Keys == c.hashes.Keys - {c.order[0]} + {key};
  }

  lemma AppendKey(c: Cache, key: string, hash: Digest)
    requires WellFormed(c) && key !in c.hashes
    ensures var d := Cache(c.order + [key], c.hashes[key := hash]);
            WellFormed(d) && |d.hashes| == |c.hashes| + 1
  {
    assert c.hashes[key := hash].Keys == c.hashes.Keys + {key};
  }

  /** The cap is never exceeded and the cache stays a map. */
  lemma SetFileHashKeepsCap(c: Cache, key: string, hash: Digest, max: nat)
    requires WellFormed(c) && |c.hashes| <= max && max > 0
    ensures WellFormed(SetFileHash(c, key, hash, max)) && |SetFileHash(c, key, hash, max).hashes| <= max
  {
    if key in c.hashes {
      assert c.hashes[key := hash].Keys == c.hashes.Keys;
    } else {
      if c.order == [] { assert c.hashes.Keys == {}; } else { EvictOldest(c, key, hash); }
      AppendKey(c, key, hash);
    }
  }

  /** The stored hash is found again, other keys keep theirs, and a key that disappears is the oldest
      one, pushed out by a new key at the cap. */
  lemma SetFileHashIsFifo(c: Cache, key: string, hash: Digest, max: nat, k: string)
    requires WellFormed(c) && |c.hashes| <= max && max > 0
    ensures var d := SetFileHash(c, key, hash, max);
            && key in d.hashes && d.hashes[key] == hash
            && (k in d.hashes && k != key ==> k in c.hashes && d.hashes[k] == c.hashes[k])
            && (k in c.hashes && k !in d.hashes <==>
                  key !in c.hashes && |c.hashes| == max && c.order != [] && k == c.order[0])
  {
    if c.order != [] { assert c.order[0] in c.order; }
  }

  lemma {:induction false} WithoutKeepsDistinct(keys: seq<string>, p: Project)
    requires Distinct(keys)
    ensures Distinct(Without(keys, p))
  {
    if keys != [] {
      WithoutKeepsDistinct(keys[1..], p);
      var rest := Without(keys[1..], p);
      assert keys[0] !in keys[1..];
      assert Distinct([keys[0]] + rest) by {
        forall j | 0 <= j < |rest| ensures rest[j] != keys[0] { assert rest[j] in rest; }
      }
    }
  }

  lemma {:induction false} WithoutAppend(keys: seq<string>, key: string, p: Project)
    ensures Without(keys + [key], p) == Without(keys, p) + if HasId(key, p) then [] else [key]
  {
    if keys == [] {
      assert keys + [key] == [key] && [key][1..] == [];
    } else {
      assert (keys + [key])[1..] == keys[1..] + [key];
      WithoutAppend(keys[1..], key, p);
      ConcatAssociates(if HasId(keys[0], p) then [] else [keys[0]], Without(keys[1..], p),
                       if HasId(key, p) then [] else [key]);
    }
  }

  lemma InvalidateKeepsCap(c: Cache, p: Project, max: nat)
    requires WellFormed(c) && |c.hashes| <= max
    ensures WellFormed(Dropped(c, p)) && |Dropped(c, p).hashes| <= max
  {
    WithoutKeepsDistinct(c.order, p);
    SubsetSize(Dropped(c, p).hashes.Keys, c.hashes.Keys);
  }

  // ---------------------------------------------------------------- syncing

  datatype Loc = Loc(project: Project, place: Path)
  type Disk = map<Loc, Bytes>

  /** `bytes` is None for a row whose bytes cannot be loaded. */
  datatype File = File(path: Path, bytes: Option<Bytes>)

  /** Opening with O_TRUNC and writing: done, failed leaving something else, or not even opened. */
  datatype Fate = Written | Torn(left: Bytes) | Unopened

  /** `place` resolves a path below the project directory, or refuses it; `max` is the cache's cap. */
  datatype Box = Box(hash: Bytes -> Digest, place: Path -> Option<Path>, max: nat)

  datatype State = State(cache: Cache, disk: Disk, failed: bool)

  function SyncOne(box: Box, p: Project, f: File, fate: Fate, st: State): State {
    if Generated(f.path) then st
    else
      match box.place(f.path)
      case None => st.(failed := true)
      case Some(place) =>
        if f.bytes.None? then st
        else
          var hash, key := box.hash(f.bytes.value), KeyOf(p, f.path);
          if key in st.cache.hashes && st.cache.hashes[key] == hash then st
          else
            match fate
            case Written =>
              State(SetFileHash(st.cache, key, hash, box.max), st.disk[Loc(p, place) := f.bytes.value], st.failed)
            case Torn(left) => State(st.cache, st.disk[Loc(p, place) := left], true)
            case Unopened => st.(failed := true)
  }

  function Sync(box: Box, p: Project, files: seq<File>, fates: Path -> Fate, st: State): State {
    if files == [] then st
    else
      var f := files[|files| - 1];
      SyncOne(box, p, f, fates(f.path), Sync(box, p, files[..|files| - 1], fates, st))
  }

  /** The files a sync is meant to put on disk. */
  ghost predicate Meant(box: Box, f: File) { !IsGenerated(f.path) && box.place(f.path).Some? && f.bytes.Some? }

  /** Writing every such file, without a cache. */
  ghost function WriteAll(box: Box, p: Project, files: seq<File>, disk: Disk): Disk {
    if files == [] then disk
    else
      var f := files[|files| - 1];
      var before := WriteAll(box, p, files[..|files| - 1], disk);
      if Meant(box, f) then before[Loc(p, box.place(f.path).value) := f.bytes.value] else before
  }

  // ---------------------------------------------------------------- the cache invariant

  /** The files in play: the paths that a run's file lists name, project by project. */
  type Names = set<(Project, Path)>

  predicate SamePlace(box: Box, a: Path, b: Path) { box.place(a).Some? && box.place(a) == box.place(b) }

  /** Different paths in play name different files on disk, and ids have no colon. */
  ghost predicate Apart(box: Box, names: Names) {
    && (forall n :: n in names ==> ColonFree(n.0))
    && (forall m, n :: m in names && n in names && m.0 == n.0 && SamePlace(box, m.1, n.1) ==> m == n)
  }

  ghost predicate Backed(box: Box, st: State, p: Project, path: Path) {
    KeyOf(p, path) in st.cache.hashes ==>
      && box.place(path).Some? && Loc(p, box.place(path).value) in st.disk
      && st.cache.hashes[KeyOf(p, path)] == box.hash(st.disk[Loc(p, box.place(path).value)])
  }

  ghost predicate InPlay(names: Names, key: string) { exists n :: n in names && key == KeyOf(n.0, n.1) }

  /** Cached keys are keys of files in play, and a cached hash is the hash of what is on disk, for every
      project that is not stale. */
  ghost predicate Faithful(box: Box, names: Names, st: State, stale: set<Project>) {
    && WellFormed(st.cache) && |st.cache.hashes| <= box.max && box.max > 0
    && (forall k :: k in st.cache.hashes ==> InPlay(names, k))
    && (forall n :: n in names && n.0 !in stale ==> Backed(box, st, n.0, n.1))
  }

  predicate Cached(st: State, p: Project, path: Path, hash: Digest) {
    KeyOf(p, path) in st.cache.hashes && st.cache.hashes[KeyOf(p, path)] == hash
  }

  /** The write leaves the cache truthful: it does not tear a file whose old hash is cached, unless what is
      left has that hash. */
  ghost predicate Guarded(box: Box, p: Project, f: File, fate: Fate, st: State, stale: set<Project>) {
    fate.Torn? && Meant(box, f) && p !in stale && KeyOf(p, f.path) in st.cache.hashes
    && !Cached(st, p, f.path, box.hash(f.bytes.value))
    ==> Cached(st, p, f.path, box.hash(fate.left))
  }

  ghost predicate Listed(box: Box, names: Names, p: Project, f: File) { Meant(box, f) ==> (p, f.path) in names }

  /** Another file in play lies elsewhere on disk and under another key. */
  lemma OthersAreApart(box: Box, names: Names, p: Project, path: Path, n: (Project, Path))
    requires Apart(box, names) && (p, path) in names && n in names && n != (p, path) && box.place(path).Some?
    ensures KeyOf(n.0, n.1) != KeyOf(p, path)
    ensures box.place(n.1).Some? ==> Loc(n.0, box.place(n.1).value) != Loc(p, box.place(path).value)
  {
    KeysAreDistinct(n.0, n.1, p, path);
  }

  /** One write, whatever becomes of it, keeps every other file's entry backed. */
  lemma OthersStayBacked(
    box: Box, names: Names, p: Project, f: File, fate: Fate, st: State, stale: set<Project>, n: (Project, Path))
    requires Faithful(box, names, st, stale) && Apart(box, names) && Listed(box, names, p, f)
    requires n in names && n.0 !in stale && n != (p, f.path)
    ensures Backed(box, SyncOne(box, p, f, fate, st), n.0, n.1)
  {
    assert Backed(box, st, n.0, n.1);
    if Meant(box, f) {
      OthersAreApart(box, names, p, f.path, n);
      var key, k, hash := KeyOf(p, f.path), KeyOf(n.0, n.1), box.hash(f.bytes.value);
      if k in SetFileHash(st.cache, key, hash, box.max).hashes { OtherHashIsKept(st.cache, key, hash, box.max, k); }
    }
  }

  lemma OtherHashIsKept(c: Cache, key: string, hash: Digest, max: nat, k: string)
    requires k != key && k in SetFileHash(c, key, hash, max).hashes
    ensures k in c.hashes && SetFileHash(c, key, hash, max).hashes[k] == c.hashes[k]
  {
  }

  lemma OwnEntryIsBackedIff(
    box: Box, names: Names, p: Project, f: File, fate: Fate, st: State, stale: set<Project>)
    requires Faithful(box, names, st, stale) && (p, f.path) in names && p !in stale
    ensures Backed(box, SyncOne(box, p, f, fate, st), p, f.path) <==> Guarded(box, p, f, fate, st, stale)
  {
    assert Backed(box, st, p, f.path);
  }

  lemma SyncOneKeepsCache(box: Box, names: Names, p: Project, f: File, fate: Fate, st: State, stale: set<Project>)
    requires Faithful(box, names, st, stale) && Listed(box, names, p, f)
    ensures var c := SyncOne(box, p, f, fate, st).cache;
            WellFormed(c) && |c.hashes| <= box.max && forall k :: k in c.hashes ==> InPlay(names, k)
  {
    if Meant(box, f) {
      var key := KeyOf(p, f.path);
      SetFileHashKeepsCap(st.cache, key, box.hash(f.bytes.value), box.max);
      assert InPlay(names, key) by { assert (p, f.path) in names; }
    }
  }

  /** A write that completes, tears the file or does not even open it keeps the cache faithful exactly
      when it is guarded. */
  lemma SyncOneKeepsFaithfulIff(box: Box, names: Names, p: Project, f: File, fate: Fate, st: State, stale: set<Project>)
    requires Faithful(box, names, st, stale) && Apart(box, names) && Listed(box, names, p, f)
    ensures Faithful(box, names, SyncOne(box, p, f, fate, st), stale) <==> Guarded(box, p, f, fate, st, stale)
  {
    var st' := SyncOne(box, p, f, fate, st);
    SyncOneKeepsCache(box, names, p, f, fate, st, stale);
    forall n | n in names && n.0 !in stale && n != (p, f.path) ensures Backed(box, st', n.0, n.1) {
      OthersStayBacked(box, names, p, f, fate, st, stale, n);
    }
    if (p, f.path) in names && p !in stale { OwnEntryIsBackedIff(box, names, p, f, fate, st, stale); }
  }

  // ---------------------------------------------------------------- against writing everything

  /** The hash separates these bytes from different bytes already on disk under the same path. */
  ghost predicate NoCollision(box: Box, p: Project, f: File, disk: Disk) {
    Meant(box, f) ==>
      var loc := Loc(p, box.place(f.path).value);
      loc in disk && box.hash(disk[loc]) == box.hash(f.bytes.value) ==> disk[loc] == f.bytes.value
  }

  /** A cached file is not skipped by a collision. */
  ghost predicate NoFalseHit(box: Box, p: Project, f: File, st: State) {
    KeyOf(p, f.path) in st.cache.hashes ==> NoCollision(box, p, f, st.disk)
  }

  /** One cached write puts the right bytes on disk exactly when it is not a false hit. */
  lemma SyncOneIff(box: Box, names: Names, p: Project, f: File, st: State, stale: set<Project>)
    requires Faithful(box, names, st, stale) && p !in stale && (p, f.path) in names && Meant(box, f)
    ensures var loc := Loc(p, box.place(f.path).value);
            SyncOne(box, p, f, Written, st).disk == st.disk[loc := f.bytes.value] <==> NoFalseHit(box, p, f, st)
  {
    assert Backed(box, st, p, f.path);
    var loc := Loc(p, box.place(f.path).value);
    if loc in st.disk && st.disk[loc] == f.bytes.value { assert st.disk[loc := f.bytes.value] == st.disk; }
    else { assert st.disk[loc := f.bytes.value] != st.disk by { assert loc in st.disk[loc := f.bytes.value]; } }
  }

  ghost predicate AllListed(box: Box, names: Names, p: Project, files: seq<File>) {
    forall i :: 0 <= i < |files| ==> Listed(box, names, p, files[i])
  }

  /** The state in which file `i` of the list is written. */
  function StateAt(box: Box, p: Project, files: seq<File>, fates: Path -> Fate, st: State, i: nat): State
    requires i < |files|
  {
    Sync(box, p, files[..i], fates, st)
  }

  ghost predicate GuardedAt(
    box: Box, p: Project, files: seq<File>, fates: Path -> Fate, st: State, stale: set<Project>, i: nat)
    requires i < |files|
  {
    Guarded(box, p, files[i], fates(files[i].path), StateAt(box, p, files, fates, st, i), stale)
  }

  ghost predicate AllGuarded(
    box: Box, p: Project, files: seq<File>, fates: Path -> Fate, st: State, stale: set<Project>)
  {
    forall i: nat :: i < |files| ==> GuardedAt(box, p, files, fates, st, stale, i)
  }

  ghost predicate FalseHitAt(box: Box, p: Project, files: seq<File>, fates: Path -> Fate, st: State, i: nat)
    requires i < |files|
  {
    !NoFalseHit(box, p, files[i], StateAt(box, p, files, fates, st, i))
  }

  ghost predicate NoFalseHits(box: Box, p: Project, files: seq<File>, fates: Path -> Fate, st: State) {
    forall i: nat :: i < |files| ==> !FalseHitAt(box, p, files, fates, st, i)
  }

  ghost predicate AllWritten(files: seq<File>, fates: Path -> Fate) {
    forall i :: 0 <= i < |files| ==> fates(files[i].path) == Written
  }

  /** A project lists each path once. */
  ghost predicate OncePerPath(files: seq<File>) {
    forall i, j :: 0 <= i < j < |files| ==> files[i].path != files[j].path
  }

  function Front(files: seq<File>): seq<File>
    requires files != []
  {
    files[..|files| - 1]
  }

  /** What holds of every file, or at every prefix, of a list holds of its front. */
  lemma FrontFiles(box: Box, names: Names, p: Project, files: seq<File>, fates: Path -> Fate)
    requires files != []
    ensures AllListed(box, names, p, files) ==> AllListed(box, names, p, Front(files))
    ensures AllWritten(files, fates) ==> AllWritten(Front(files), fates)
    ensures OncePerPath(files) ==> OncePerPath(Front(files))
  {
  }

  lemma FrontState(box: Box, p: Project, files: seq<File>, fates: Path -> Fate, st: State, i: nat)
    requires files != [] && i < |files| - 1
    ensures StateAt(box, p, Front(files), fates, st, i) == StateAt(box, p, files, fates, st, i)
  {
    assert Front(files)[..i] == files[..i];
  }

  lemma FrontPrefixes(box: Box, p: Project, files: seq<File>, fates: Path -> Fate, st: State, stale: set<Project>)
    requires files != []
    ensures AllGuarded(box, p, files, fates, st, stale) ==> AllGuarded(box, p, Front(files), fates, st, stale)
    ensures NoFalseHits(box, p, files, fates, st) ==> NoFalseHits(box, p, Front(files), fates, st)
  {
    forall i: nat | i < |files| - 1
      ensures GuardedAt(box, p, files, fates, st, stale, i) ==> GuardedAt(box, p, Front(files), fates, st, stale, i)
      ensures FalseHitAt(box, p, Front(files), fates, st, i) ==> FalseHitAt(box, p, files, fates, st, i)
    {
      FrontState(box, p, files, fates, st, i);
    }
  }

  lemma {:induction false} SyncKeepsFaithful(
    box: Box, names: Names, p: Project, files: seq<File>, fates: Path -> Fate, st: State, stale: set<Project>)
    requires Faithful(box, names, st, stale) && Apart(box, names) && AllListed(box, names, p, files)
    requires AllGuarded(box, p, files, fates, st, stale)
    ensures Faithful(box, names, Sync(box, p, files, fates, st), stale)
  {
    if files != [] {
      var n := |files| - 1;
      FrontFiles(box, names, p, files, fates);
      FrontPrefixes(box, p, files, fates, st, stale);
      SyncKeepsFaithful(box, names, p, Front(files), fates, st, stale);
      assert GuardedAt(box, p, files, fates, st, stale, n);
      var mid := Sync(box, p, Front(files), fates, st);
      SyncOneKeepsFaithfulIff(box, names, p, files[n], fates(files[n].path), mid, stale);
    }
  }

  lemma WrittenKeepsFaithful(
    box: Box, names: Names, p: Project, files: seq<File>, fates: Path -> Fate, st: State, stale: set<Project>)
    requires Faithful(box, names, st, stale) && Apart(box, names) && AllListed(box, names, p, files)
    requires AllWritten(files, fates)
    ensures Faithful(box, names, Sync(box, p, files, fates, st), stale)
  {
    assert AllGuarded(box, p, files, fates, st, stale);
    SyncKeepsFaithful(box, names, p, files, fates, st, stale);
  }

  lemma TrueWrite(
    box: Box, names: Names, p: Project, f: File, st: State, stale: set<Project>, disk: Disk)
    requires Faithful(box, names, st, stale) && Listed(box, names, p, f) && p !in stale
    requires NoFalseHit(box, p, f, st) && st.disk == disk
    ensures SyncOne(box, p, f, Written, st).disk
            == if Meant(box, f) then disk[Loc(p, box.place(f.path).value) := f.bytes.value] else disk
  {
    if Meant(box, f) { SyncOneIff(box, names, p, f, st, stale); }
  }

  /** Without a false hit, writing through the cache leaves the disk that writing everything leaves. */
  lemma {:induction false} SyncWritesAll(
    box: Box, names: Names, p: Project, files: seq<File>, fates: Path -> Fate, st: State, stale: set<Project>)
    requires Faithful(box, names, st, stale) && Apart(box, names) && AllListed(box, names, p, files) && p !in stale
    requires AllWritten(files, fates) && NoFalseHits(box, p, files, fates, st)
    ensures Sync(box, p, files, fates, st).disk == WriteAll(box, p, files, st.disk)
  {
    if files != [] {
      var n := |files| - 1;
      FrontFiles(box, names, p, files, fates);
      FrontPrefixes(box, p, files, fates, st, stale);
      SyncWritesAll(box, names, p, Front(files), fates, st, stale);
      WrittenKeepsFaithful(box, names, p, Front(files), fates, st, stale);
      var mid := Sync(box, p, Front(files), fates, st);
      assert !FalseHitAt(box, p, files, fates, st, n) && fates(files[n].path) == Written;
      TrueWrite(box, names, p, files[n], mid, stale, WriteAll(box, p, Front(files), st.disk));
    }
  }

  /** The disk holds the file's bytes, if the file is meant to be there. */
  ghost predicate OnDisk(box: Box, p: Project, f: File, disk: Disk) {
    Meant(box, f) ==> var loc := Loc(p, box.place(f.path).value); loc in disk && disk[loc] == f.bytes.value
  }

  /** Handling another path leaves a file on disk as it is. */
  lemma OtherPathIsSpared(box: Box, names: Names, p: Project, f: File, g: File, st: State)
    requires Apart(box, names) && Listed(box, names, p, f) && Listed(box, names, p, g) && f.path != g.path
    ensures OnDisk(box, p, f, SyncOne(box, p, g, Written, st).disk) <==> OnDisk(box, p, f, st.disk)
  {
    if Meant(box, f) && Meant(box, g) { OthersAreApart(box, names, p, g.path, (p, f.path)); }
  }

  lemma FalseHitIsSkipped(box: Box, names: Names, p: Project, f: File, st: State, stale: set<Project>)
    requires Faithful(box, names, st, stale) && Listed(box, names, p, f) && p !in stale && !NoFalseHit(box, p, f, st)
    ensures !OnDisk(box, p, f, SyncOne(box, p, f, Written, st).disk)
  {
    assert Backed(box, st, p, f.path);
  }

  lemma LastFileIsSkipped(
    box: Box, names: Names, p: Project, files: seq<File>, fates: Path -> Fate, st: State, stale: set<Project>)
    requires Faithful(box, names, st, stale) && Apart(box, names) && AllListed(box, names, p, files) && p !in stale
    requires AllWritten(files, fates) && files != [] && FalseHitAt(box, p, files, fates, st, |files| - 1)
    ensures !OnDisk(box, p, files[|files| - 1], Sync(box, p, files, fates, st).disk)
  {
    FrontFiles(box, names, p, files, fates);
    WrittenKeepsFaithful(box, names, p, Front(files), fates, st, stale);
    FalseHitIsSkipped(box, names, p, files[|files| - 1], Sync(box, p, Front(files), fates, st), stale);
  }

  lemma LastFileSparesOthers(
    box: Box, names: Names, p: Project, files: seq<File>, fates: Path -> Fate, st: State, i: nat)
    requires Apart(box, names) && AllListed(box, names, p, files) && AllWritten(files, fates) && OncePerPath(files)
    requires files != [] && i < |files| - 1
    ensures OnDisk(box, p, files[i], Sync(box, p, files, fates, st).disk)
            <==> OnDisk(box, p, files[i], Sync(box, p, Front(files), fates, st).disk)
  {
    OtherPathIsSpared(box, names, p, files[i], files[|files| - 1], Sync(box, p, Front(files), fates, st));
  }

  /** A false hit leaves other bytes on disk, and nothing later in the list repairs it. */
  lemma {:induction false} FalseHitStays(
    box: Box, names: Names, p: Project, files: seq<File>, fates: Path -> Fate, st: State, stale: set<Project>, i: nat)
    requires Faithful(box, names, st, stale) && Apart(box, names) && AllListed(box, names, p, files) && p !in stale
    requires AllWritten(files, fates) && OncePerPath(files) && i < |files| && FalseHitAt(box, p, files, fates, st, i)
    ensures !OnDisk(box, p, files[i], Sync(box, p, files, fates, st).disk)
  {
    if i == |files| - 1 {
      LastFileIsSkipped(box, names, p, files, fates, st, stale);
    } else {
      FrontFiles(box, names, p, files, fates);
      assert FalseHitAt(box, p, Front(files), fates, st, i) by { FrontState(box, p, files, fates, st, i); }
      FalseHitStays(box, names, p, Front(files), fates, st, stale, i);
      LastFileSparesOthers(box, names, p, files, fates, st, i);
    }
  }

  lemma {:induction false} WriteAllWrites(box: Box, names: Names, p: Project, files: seq<File>, disk: Disk, i: nat)
    requires Apart(box, names) && AllListed(box, names, p, files) && OncePerPath(files) && i < |files|
    ensures OnDisk(box, p, files[i], WriteAll(box, p, files, disk))
  {
    var n := |files| - 1;
    if i < n {
      FrontFiles(box, names, p, files, _ => Written);
      WriteAllWrites(box, names, p, Front(files), disk, i);
      if Meant(box, files[i]) && Meant(box, files[n]) {
        OthersAreApart(box, names, p, files[n].path, (p, files[i].path));
      }
    }
  }

  /** Writing through the cache leaves the disk that writing everything leaves exactly when there is no
      false hit: no cached file whose old bytes differ from the new ones and have the same hash. */
  lemma SyncWritesAllIff(
    box: Box, names: Names, p: Project, files: seq<File>, fates: Path -> Fate, st: State, stale: set<Project>)
    requires Faithful(box, names, st, stale) && Apart(box, names) && AllListed(box, names, p, files) && p !in stale
    requires AllWritten(files, fates) && OncePerPath(files)
    ensures Sync(box, p, files, fates, st).disk == WriteAll(box, p, files, st.disk)
            <==> NoFalseHits(box, p, files, fates, st)
  {
    if NoFalseHits(box, p, files, fates, st) {
      SyncWritesAll(box, names, p, files, fates, st, stale);
    } else {
      var i: nat :| i < |files| && FalseHitAt(box, p, files, fates, st, i);
      FalseHitStays(box, names, p, files, fates, st, stale, i);
      WriteAllWrites(box, names, p, files, st.disk, i);
    }
  }

  /** The file cannot be placed, or has to be written and is not written whole. */
  ghost predicate Fails(box: Box, p: Project, f: File, fate: Fate, st: State) {
    && !IsGenerated(f.path)
    && (box.place(f.path) == None
        || (f.bytes.Some? && !Cached(st, p, f.path, box.hash(f.bytes.value)) && fate != Written))
  }

  ghost predicate FailsAt(box: Box, p: Project, files: seq<File>, fates: Path -> Fate, st: State, i: nat) {
    i < |files| && Fails(box, p, files[i], fates(files[i].path), StateAt(box, p, files, fates, st, i))
  }

  ghost predicate SomeFails(box: Box, p: Project, files: seq<File>, fates: Path -> Fate, st: State) {
    exists i: nat :: FailsAt(box, p, files, fates, st, i)
  }

  lemma SomeFailsStep(box: Box, p: Project, files: seq<File>, fates: Path -> Fate, st: State)
    requires files != []
    ensures SomeFails(box, p, files, fates, st)
            <==> SomeFails(box, p, Front(files), fates, st) || FailsAt(box, p, files, fates, st, |files| - 1)
  {
    forall i: nat | i < |files| - 1
      ensures FailsAt(box, p, files, fates, st, i) <==> FailsAt(box, p, Front(files), fates, st, i)
    {
      FrontState(box, p, files, fates, st, i);
    }
  }

  /** A sync reports failure exactly when some file fails; the files behind it are handled all the same. */
  lemma {:induction false} SyncFailsIff(box: Box, p: Project, files: seq<File>, fates: Path -> Fate, st: State)
    ensures Sync(box, p, files, fates, st).failed <==> st.failed || SomeFails(box, p, files, fates, st)
  {
    if files != [] {
      var f := files[|files| - 1];
      SyncFailsIff(box, p, Front(files), fates, st);
      SomeFailsStep(box, p, files, fates, st);
      FailureStays(box, p, f, fates(f.path), Sync(box, p, Front(files), fates, st));
    }
  }

  lemma FailureStays(box: Box, p: Project, f: File, fate: Fate, st: State)
    ensures SyncOne(box, p, f, fate, st).failed <==> st.failed || Fails(box, p, f, fate, st)
  {
  }

  /** What writing everything leaves at one place. */
  lemma {:induction false} WriteAllAt(box: Box, names: Names, p: Project, files: seq<File>, disk: Disk, loc: Loc)
    requires Apart(box, names) && AllListed(box, names, p, files) && OncePerPath(files)
    requires forall i :: 0 <= i < |files| && Meant(box, files[i]) ==> loc != Loc(p, box.place(files[i].path).value)
    ensures loc in WriteAll(box, p, files, disk) <==> loc in disk
    ensures loc in disk ==> WriteAll(box, p, files, disk)[loc] == disk[loc]
  {
    if files != [] { WriteAllAt(box, names, p, files[..|files| - 1], disk, loc); }
  }

  /** The order in which the files of a project are written does not matter. */
  lemma WriteAllIgnoresOrder(box: Box, names: Names, p: Project, a: seq<File>, b: seq<File>, disk: Disk)
    requires Apart(box, names) && AllListed(box, names, p, a) && AllListed(box, names, p, b)
    requires OncePerPath(a) && OncePerPath(b) && forall f :: f in a <==> f in b
    ensures WriteAll(box, p, a, disk) == WriteAll(box, p, b, disk)
  {
    var x, y := WriteAll(box, p, a, disk), WriteAll(box, p, b, disk);
    forall loc ensures (loc in x <==> loc in y) && (loc in x ==> x[loc] == y[loc]) {
      if i :| 0 <= i < |a| && Meant(box, a[i]) && loc == Loc(p, box.place(a[i].path).value) {
        assert a[i] in b;
        var j :| 0 <= j < |b| && b[j] == a[i];
        WriteAllWrites(box, names, p, a, disk, i);
        WriteAllWrites(box, names, p, b, disk, j);
      } else {
        forall j | 0 <= j < |b| && Meant(box, b[j]) ensures loc != Loc(p, box.place(b[j].path).value) {
          assert b[j] in a;
        }
        WriteAllAt(box, names, p, a, disk, loc);
        WriteAllAt(box, names, p, b, disk, loc);
      }
    }
  }

  /** After a torn write, going back to the previous bytes is skipped: the torn file stays. */
  lemma TornWriteIsNotRepaired(
    box: Box, p: Project, path: Path, was: Bytes, next: Bytes, left: Bytes, st: State, fate: Fate)
    requires Meant(box, File(path, Some(was))) && Cached(st, p, path, box.hash(was)) && box.hash(next) != box.hash(was)
    ensures var torn := SyncOne(box, p, File(path, Some(next)), Torn(left), st);
            SyncOne(box, p, File(path, Some(was)), fate, torn).disk == st.disk[Loc(p, box.place(path).value) := left]
  {
  }

  // ---------------------------------------------------------------- whole runs

  datatype Event =
    | SyncFiles(p: Project, files: seq<File>, fates: Path -> Fate)
    | Outside(p: Project, after: map<Path, Bytes>)
    | InvalidateCache(p: Project)

  /** The state of a run, with the projects changed on disk since their last invalidation. */
  datatype Run = Run(st: State, stale: set<Project>)

  function Others(p: Project, disk: Disk): Disk { map l | l in disk && l.project != p :: disk[l] }

  function Placed(p: Project, after: map<Path, Bytes>): Disk {
    map l | l in (set x | x in after :: Loc(p, x)) :: after[l.place]
  }

  function Next(box: Box, r: Run, e: Event): Run {
    match e
    case SyncFiles(p, files, fates) => r.(st := Sync(box, p, files, fates, r.st))
    case Outside(p, after) => Run(r.st.(disk := Others(p, r.st.disk) + Placed(p, after)), r.stale + {p})
    case InvalidateCache(p) => Run(r.st.(cache := Dropped(r.st.cache, p)), r.stale - {p})
  }

  /** Every outside change to a project is followed by an invalidation before its next sync; syncs name
      files in play, each once, and write guardedly. */
  ghost predicate Disciplined(box: Box, names: Names, r: Run, e: Event) {
    && ColonFree(e.p)
    && (e.SyncFiles? ==>
          && e.p !in r.stale && AllListed(box, names, e.p, e.files) && OncePerPath(e.files)
          && AllGuarded(box, e.p, e.files, e.fates, r.st, r.stale))
  }

  lemma InvalidationKeepsFaithful(box: Box, names: Names, st: State, stale: set<Project>, p: Project)
    requires Faithful(box, names, st, stale) && Apart(box, names) && ColonFree(p)
    ensures Faithful(box, names, st.(cache := Dropped(st.cache, p)), stale - {p})
  {
    var st' := st.(cache := Dropped(st.cache, p));
    InvalidateKeepsCap(st.cache, p, box.max);
    forall n | n in names && n.0 !in stale - {p} ensures Backed(box, st', n.0, n.1) {
      InvalidateIsExact(st.cache, p, n.0, n.1);
      if n.0 != p { assert Backed(box, st, n.0, n.1); }
    }
  }

  lemma OutsideKeepsFaithful(
    box: Box, names: Names, st: State, stale: set<Project>, p: Project, after: map<Path, Bytes>)
    requires Faithful(box, names, st, stale)
    ensures Faithful(box, names, st.(disk := Others(p, st.disk) + Placed(p, after)), stale + {p})
  {
    var st' := st.(disk := Others(p, st.disk) + Placed(p, after));
    forall n | n in names && n.0 !in stale + {p} ensures Backed(box, st', n.0, n.1) {
      assert Backed(box, st, n.0, n.1);
    }
  }

  lemma StepKeepsFaithful(box: Box, names: Names, r: Run, e: Event)
    requires Faithful(box, names, r.st, r.stale) && Apart(box, names) && Disciplined(box, names, r, e)
    ensures Faithful(box, names, Next(box, r, e).st, Next(box, r, e).stale)
  {
    match e
    case SyncFiles(p, files, fates) => SyncKeepsFaithful(box, names, p, files, fates, r.st, r.stale);
    case Outside(p, after) => OutsideKeepsFaithful(box, names, r.st, r.stale, p, after);
    case InvalidateCache(p) => InvalidationKeepsFaithful(box, names, r.st, r.stale, p);
  }

  /** Along every disciplined run the cache is faithful and never over its cap, and each sync whose writes
      complete leaves the disk that writing every file would, exactly when it meets no false hit. */
  lemma {:induction false} RunsAreFaithful(box: Box, names: Names, trace: seq<Run>, es: seq<Event>, i: nat)
    requires Apart(box, names) && box.max > 0
    requires |trace| == |es| + 1 && trace[0].st.cache == Cache([], map[])
    requires forall k :: 0 <= k < |es| ==>
               Disciplined(box, names, trace[k], es[k]) && trace[k + 1] == Next(box, trace[k], es[k])
    requires i <= |es|
    ensures Faithful(box, names, trace[i].st, trace[i].stale)
    ensures i < |es| && es[i].SyncFiles? && AllWritten(es[i].files, es[i].fates) ==>
              (trace[i + 1].st.disk == WriteAll(box, es[i].p, es[i].files, trace[i].st.disk)
               <==> NoFalseHits(box, es[i].p, es[i].files, es[i].fates, trace[i].st))
  {
    if i > 0 {
      RunsAreFaithful(box, names, trace, es, i - 1);
      StepKeepsFaithful(box, names, trace[i - 1], es[i - 1]);
    }
    if i < |es| && es[i].SyncFiles? && AllWritten(es[i].files, es[i].fates) {
      SyncWritesAllIff(box, names, es[i].p, es[i].files, es[i].fates, trace[i].st, trace[i].stale);
    }
  }

  // ---------------------------------------------------------------- in the code's own form

  ghost predicate SomeDropped(was: Cache, seen: seq<string>, p: Project, now: Cache) {
    && now.order == Without(seen, p)
    && (forall k :: k in now.hashes <==> k in was.hashes && (k in seen ==> !HasId(k, p)))
    && (forall k :: k in now.hashes ==> now.hashes[k] == was.hashes[k])
  }

  lemma DropOneMore(was: Cache, seen: seq<string>, key: string, p: Project, now: Cache)
    requires SomeDropped(was, seen, p, now)
    ensures SomeDropped(was, seen + [key], p,
                        if HasId(key, p) then now.(hashes := now.hashes - {key}) else now.(order := now.order + [key]))
  {
    WithoutAppend(seen, key, p);
    var next := if HasId(key, p) then now.(hashes := now.hashes - {key}) else now.(order := now.order + [key]);
    forall k ensures k in next.hashes <==> k in was.hashes && (k in seen + [key] ==> !HasId(k, p)) {
      assert k in seen + [key] <==> k in seen || k == key;
    }
  }

  /** Visiting the keys by age and deleting those of the project. */
  method DropKeys(c: Cache, p: Project) returns (left: Cache)
    requires forall k :: k in c.order <==> k in c.hashes
    ensures left == Dropped(c, p)
  {
    left := Cache([], c.hashes);
    for i := 0 to |c.order|
      invariant SomeDropped(c, c.order[..i], p, left)
    {
      var key := c.order[i];
      assert c.order[..i + 1] == c.order[..i] + [key];
      DropOneMore(c, c.order[..i], key, p, left);
      left := if HasId(key, p) then left.(hashes := left.hashes - {key}) else left.(order := left.order + [key]);
    }
    assert c.order[..|c.order|] == c.order;
    AllDropped(c, p, left);
  }

  lemma AllDropped(c: Cache, p: Project, left: Cache)
    requires (forall k :: k in c.order <==> k in c.hashes) && SomeDropped(c, c.order, p, left)
    ensures left == Dropped(c, p)
  {
    assert left.hashes == map k | k in c.hashes && !HasId(k, p) :: c.hashes[k];
  }

  class Compiler {
    const box: Box
    var order: seq<string>
    var hashes: map<string, Digest>
    var disk: Disk

    constructor (hash: Bytes -> Digest, place: Path -> Option<Path>)
      ensures box == Box(hash, place, 50_000) && Current() == State(Cache([], map[]), map[], false)
    {
      box, order, hashes, disk := Box(hash, place, FILE_HASH_CACHE_MAX), [], map[], map[];
    }

    ghost function Current(): State
      reads this
    {
      State(Cache(order, hashes), disk, false)
    }

    method StoreHash(key: string, hash: Digest)
      modifies this`order, this`hashes
      ensures Cache(order, hashes) == SetFileHash(old(Current()).cache, key, hash, box.max)
    {
      if key !in hashes {
        if |hashes| >= box.max && order != [] {
          var oldest := order[0];
          order, hashes := order[1..], hashes - {oldest};
        }
        order := order + [key];
      }
      hashes := hashes[key := hash];
    }

    /** The keys are listed once each, as in every state of a run. */
    method InvalidateFileCache(p: Project)
      requires WellFormed(Current().cache)
      modifies this`order, this`hashes
      ensures Cache(order, hashes) == Dropped(old(Current()).cache, p)
    {
      var left := DropKeys(Cache(order, hashes), p);
      order, hashes := left.order, left.hashes;
    }

    method SyncFilesToDisk(p: Project, files: seq<File>, fates: Path -> Fate) returns (failed: bool)
      modifies this
      ensures Current().(failed := failed) == Sync(box, p, files, fates, old(Current()))
    {
      failed := false;
      for i := 0 to |files|
        invariant Current().(failed := failed) == Sync(box, p, files[..i], fates, old(Current()))
      {
        var f := files[i];
        assert files[..i + 1][..i] == files[..i];
        if Generated(f.path) { continue; }
        var place := box.place(f.path);
        if place.None? {
          failed := true;
          continue;
        }
        if f.bytes.None? { continue; }
        var hash, key := box.hash(f.bytes.value), KeyOf(p, f.path);
        if key in hashes && hashes[key] == hash { continue; }
        match fates(f.path) {
          case Written =>
            disk := disk[Loc(p, place.value) := f.bytes.value];
            StoreHash(key, hash);
          case Torn(left) =>
            disk, failed := disk[Loc(p, place.value) := left], true;
          case Unopened =>
            failed := true;
        }
      }
      assert files[..|files|] == files;
    }
  }
}
