/** The five-second membership cache in front of the project_members table. */
module Membership {
  import opened Common

  const MEMBERSHIP_TTL := 5_000

  type Role = string
  type Table = map<(string, string), Role>
  datatype CacheEntry = CacheEntry(value: Option<Role>, ts: int)
  type Cache = map<string, CacheEntry>

  predicate IsHex(c: char) { '0' <= c <= '9' || 'a' <= c <= 'f' || 'A' <= c <= 'F' }

  predicate IsUuid(s: string) {
    |s| == 36 && forall i :: 0 <= i < 36 ==> if i in {8, 13, 18, 23} then s[i] == '-' else IsHex(s[i])
  }

  function RowOf(db: Table, p: string, u: string): Option<Role> {
    if (p, u) in db then Some(db[(p, u)]) else None
  }

  predicate Asked(p: string, u: string) { u != "" && IsUuid(p) }

  predicate Fresh(c: Cache, key: string, now: int) { key in c && now - c[key].ts < MEMBERSHIP_TTL }

  /** The answer, where `row` is what the database says now. */
  function Answer(c: Cache, p: string, u: string, row: Option<Role>, now: int): Option<Role> {
    if !Asked(p, u) then None
    else if Fresh(c, KeyOf(p, u), now) then c[KeyOf(p, u)].value
    else row
  }

  function Read(c: Cache, p: string, u: string, row: Option<Role>, now: int): Cache {
    if !Asked(p, u) || Fresh(c, KeyOf(p, u), now) then c
    else c[KeyOf(p, u) := CacheEntry(row, now)]
  }

  /** The key goes: one user's, or without a user every key that starts with the project and a colon. */
  predicate Drops(p: string, u: string, key: string) {
    if u != "" then key == KeyOf(p, u) else HasId(key, p)
  }

  function Invalidated(c: Cache, p: string, u: string): Cache { map k | k in c && !Drops(p, u, k) :: c[k] }

  function Swept(c: Cache, now: int): Cache { map k | k in c && !(now - c[k].ts > MEMBERSHIP_TTL) :: c[k] }

  // ---------------------------------------------------------------- runs

  /** The database changes on its own; a read may find it failing; the clock never runs back. */
  datatype Event =
    | IsMember(p: string, u: string, dbFails: bool)
    | SetRow(p: string, u: string, role: Option<Role>)
    | Invalidate(p: string, u: string)
    | Sweep
    | Tick(elapsed: nat)

  datatype World = World(cache: Cache, db: Table, now: int)

  predicate FailsRead(w: World, e: Event) {
    e.IsMember? && e.dbFails && Asked(e.p, e.u) && !Fresh(w.cache, KeyOf(e.p, e.u), w.now)
  }

  function Next(w: World, e: Event): World {
    match e
    case IsMember(p, u, _) =>
      if FailsRead(w, e) then w else w.(cache := Read(w.cache, p, u, RowOf(w.db, p, u), w.now))
    case SetRow(p, u, role) => w.(db := if role.Some? then w.db[(p, u) := role.value] else w.db - {(p, u)})
    case Invalidate(p, u) => w.(cache := Invalidated(w.cache, p, u))
    case Sweep => w.(cache := Swept(w.cache, w.now))
    case Tick(elapsed) => w.(now := w.now + elapsed)
  }

  ghost predicate IsRun(ws: seq<World>, es: seq<Event>) {
    && |ws| == |es| + 1 && ws[0].cache == map[]
    && forall i :: 0 <= i < |es| ==> ws[i + 1] == Next(ws[i], es[i])
  }

  function AnswerIn(w: World, p: string, u: string): Option<Role> {
    Answer(w.cache, p, u, RowOf(w.db, p, u), w.now)
  }

  // ---------------------------------------------------------------- which reads are asked

  /** `s[i..j]` consists of hexadecimal digits in either case. */
  ghost predicate HexRun(s: string, i: nat, j: nat) {
    i <= j <= |s| && forall k :: i <= k < j ==> s[k] in "0123456789abcdefABCDEF"
  }

  /** Groups of 8, 4, 4, 4 and 12 hexadecimal digits with dashes between. */
  ghost predicate UuidShape(s: string) {
    && |s| == 36 && HexRun(s, 0, 8) && s[8] == '-' && HexRun(s, 9, 13) && s[13] == '-' && HexRun(s, 14, 18)
    && s[18] == '-' && HexRun(s, 19, 23) && s[23] == '-' && HexRun(s, 24, 36)
  }

  lemma IsHexIff(c: char)
    ensures IsHex(c) <==> c in "0123456789abcdefABCDEF"
  {
  }

  lemma AskedIff(p: string, u: string)
    ensures Asked(p, u) <==> u != "" && UuidShape(p)
  {
    forall c: char ensures IsHex(c) <==> c in "0123456789abcdefABCDEF" { IsHexIff(c); }
  }

  /** No user, or no proper project id: nobody is a member. Otherwise an entry less than five seconds old
      answers, and if there is none, the database does, and its answer is kept. */
  lemma AnswerMeans(c: Cache, p: string, u: string, row: Option<Role>, now: int)
    ensures u == "" || !UuidShape(p) ==> Answer(c, p, u, row, now) == None && Read(c, p, u, row, now) == c
    ensures var k := KeyOf(p, u);
            u != "" && UuidShape(p) ==>
              if k in c && now - c[k].ts < 5_000
              then Answer(c, p, u, row, now) == c[k].value && Read(c, p, u, row, now) == c
              else Answer(c, p, u, row, now) == row && Read(c, p, u, row, now) == c[k := CacheEntry(row, now)]
  {
    AskedIff(p, u);
  }

  // ---------------------------------------------------------------- keys

  /** Invalidating a whole project drops an entry exactly when the id is that of the entry's project, or
      begins with it and a colon and the user's id goes on accordingly. */
  lemma ProjectDropIff(p: string, q: string, u: string)
    requires IsUuid(q)
    ensures Drops(p, "", KeyOf(q, u)) <==> p == q || exists v, rest :: p == KeyOf(q, v) && u == KeyOf(v, rest)
  {
    UuidIsColonFree(q);
    PrefixIff(p, q, u);
  }

  lemma UuidIsColonFree(p: string)
    requires IsUuid(p)
    ensures ColonFree(p)
  {
  }

  lemma AskedKeysAreDistinct(p: string, u: string, q: string, v: string)
    requires IsUuid(p) && IsUuid(q)
    ensures KeyOf(p, u) == KeyOf(q, v) <==> p == q && u == v
  {
    UuidIsColonFree(p);
    UuidIsColonFree(q);
    KeysAreDistinct(p, u, q, v);
  }

  /** An invalidation drops the named user's entry, or all of the project's, and leaves every other one as it was. */
  lemma InvalidationIsExact(c: Cache, p: string, u: string, q: string, v: string)
    requires IsUuid(p) && IsUuid(q)
    ensures KeyOf(q, v) in Invalidated(c, p, u) <==> KeyOf(q, v) in c && !(q == p && (u == "" || v == u))
    ensures KeyOf(q, v) in Invalidated(c, p, u) ==> Invalidated(c, p, u)[KeyOf(q, v)] == c[KeyOf(q, v)]
  {
    if u == "" {
      UuidIsColonFree(p);
      UuidIsColonFree(q);
      PrefixIsExact(p, q, v);
    } else {
      AskedKeysAreDistinct(p, u, q, v);
    }
  }

  // ---------------------------------------------------------------- answers are less than five seconds old

  /** At moment `j` of the run the clock stood at `ts` and the database said `value`. */
  ghost predicate Witnessed(ws: seq<World>, j: nat, p: string, u: string, value: Option<Role>, ts: int) {
    j < |ws| && ws[j].now == ts && RowOf(ws[j].db, p, u) == value
  }

  ghost predicate EntryOk(ws: seq<World>, i: nat, p: string, u: string)
    requires i < |ws|
  {
    Asked(p, u) && KeyOf(p, u) in ws[i].cache ==>
      var e := ws[i].cache[KeyOf(p, u)];
      exists j: nat :: j <= i && Witnessed(ws, j, p, u, e.value, e.ts)
  }

  lemma {:induction false} EntriesAreWitnessed(ws: seq<World>, es: seq<Event>, i: nat, p: string, u: string)
    requires IsRun(ws, es) && i < |ws| && Asked(p, u)
    ensures EntryOk(ws, i, p, u)
  {
    if i > 0 {
      EntriesAreWitnessed(ws, es, i - 1, p, u);
      var w, e, key := ws[i - 1], es[i - 1], KeyOf(p, u);
      if key in ws[i].cache {
        if key in w.cache && ws[i].cache[key] == w.cache[key] {
          var j: nat :| j <= i - 1 && Witnessed(ws, j, p, u, w.cache[key].value, w.cache[key].ts);
          assert j <= i && Witnessed(ws, j, p, u, ws[i].cache[key].value, ws[i].cache[key].ts);
        } else {
          assert e.IsMember? && Asked(e.p, e.u) && key == KeyOf(e.p, e.u);
          AskedKeysAreDistinct(p, u, e.p, e.u);
          assert Witnessed(ws, i - 1, p, u, ws[i].cache[key].value, ws[i].cache[key].ts);
        }
      }
    }
  }

  /** Every answer for a project and a user was the database's at some moment less than five seconds before. */
  lemma AnswersAreRecent(ws: seq<World>, es: seq<Event>, i: nat, p: string, u: string) returns (j: nat)
    requires IsRun(ws, es) && i < |ws| && Asked(p, u)
    ensures j <= i && ws[i].now - ws[j].now < 5_000 && RowOf(ws[j].db, p, u) == AnswerIn(ws[i], p, u)
  {
    if Fresh(ws[i].cache, KeyOf(p, u), ws[i].now) {
      EntriesAreWitnessed(ws, es, i, p, u);
      var e := ws[i].cache[KeyOf(p, u)];
      j :| j <= i && Witnessed(ws, j, p, u, e.value, e.ts);
    } else {
      j := i;
    }
  }

  // ---------------------------------------------------------------- answers are kept for five seconds

  ghost predicate KeptFrom(ws: seq<World>, i: nat, k: nat, p: string, u: string)
    requires i < |ws| && k < |ws|
  {
    KeyOf(p, u) in ws[k].cache && ws[k].cache[KeyOf(p, u)] == CacheEntry(RowOf(ws[i].db, p, u), ws[i].now)
  }

  /** The event drops this user's entry. */
  ghost predicate Forgets(e: Event, p: string, u: string) { e in {Invalidate(p, u), Invalidate(p, "")} }

  /** A read that finds no usable entry and reaches the database settles the answer: until an invalidation
      of the user or the project, every read in the next five seconds repeats it, whatever the row has become. */
  lemma {:induction false} AnswersAreKept(ws: seq<World>, es: seq<Event>, i: nat, k: nat, p: string, u: string)
    requires IsRun(ws, es) && i < k < |ws| && Asked(p, u) && es[i] == IsMember(p, u, false)
    requires KeyOf(p, u) in ws[i].cache ==> ws[i].now - ws[i].cache[KeyOf(p, u)].ts >= 5_000
    requires ws[k].now - ws[i].now < 5_000
    requires forall n :: i < n < k ==> !Forgets(es[n], p, u) && (es[n].Invalidate? ==> IsUuid(es[n].p))
    ensures KeptFrom(ws, i, k, p, u) && AnswerIn(ws[k], p, u) == RowOf(ws[i].db, p, u)
    decreases k
  {
    if k > i + 1 {
      TimeRuns(ws, es, i, k - 1);
      AnswersAreKept(ws, es, i, k - 1, p, u);
      var e := es[k - 1];
      if e.IsMember? && Asked(e.p, e.u) { AskedKeysAreDistinct(p, u, e.p, e.u); }
      if e.Invalidate? { InvalidationIsExact(ws[k - 1].cache, e.p, e.u, p, u); }
    }
  }

  lemma {:induction false} TimeRuns(ws: seq<World>, es: seq<Event>, i: nat, k: nat)
    requires IsRun(ws, es) && i <= k < |ws|
    ensures ws[i].now <= ws[k].now && (k + 1 < |ws| ==> ws[k].now <= ws[k + 1].now)
    decreases k
  {
    if i < k { TimeRuns(ws, es, i, k - 1); }
  }

  /** A read that fails leaves no entry behind. */
  lemma FailedReadLeavesNoEntry(w: World, p: string, u: string)
    requires Asked(p, u) && (KeyOf(p, u) in w.cache ==> w.now - w.cache[KeyOf(p, u)].ts >= 5_000)
    ensures Next(w, IsMember(p, u, true)) == w
  {
  }

  /** A sweep drops the entries that are older than five seconds, and no other. */
  lemma SweptIff(c: Cache, now: int, k: string)
    ensures k in Swept(c, now) <==> k in c && now - c[k].ts <= 5_000
    ensures k in Swept(c, now) ==> Swept(c, now)[k] == c[k]
  {
  }

  // ---------------------------------------------------------------- after an invalidation reads are current

  ghost predicate Current(w: World, p: string, u: string) {
    KeyOf(p, u) in w.cache ==> w.cache[KeyOf(p, u)].value == RowOf(w.db, p, u)
  }

  predicate Changes(e: Event, p: string, u: string) { e.SetRow? && e.p == p && e.u == u }

  lemma StepKeepsCurrent(w: World, e: Event, p: string, u: string)
    requires Asked(p, u) && Current(w, p, u) && !Changes(e, p, u)
    ensures Current(Next(w, e), p, u)
  {
    if e.IsMember? && Asked(e.p, e.u) { AskedKeysAreDistinct(p, u, e.p, e.u); }
  }

  lemma {:induction false} StaysCurrent(ws: seq<World>, es: seq<Event>, i: nat, k: nat, p: string, u: string)
    requires IsRun(ws, es) && i <= k < |ws| && Asked(p, u) && Current(ws[i], p, u)
    requires forall n :: i <= n < k ==> !Changes(es[n], p, u)
    ensures Current(ws[k], p, u)
    decreases k
  {
    if i < k {
      StaysCurrent(ws, es, i, k - 1, p, u);
      StepKeepsCurrent(ws[k - 1], es[k - 1], p, u);
    }
  }

  /** Once a change is followed by an invalidation of the user or of the whole project, every read up to
      the next change of that row gives the database's present answer. */
  lemma InvalidationMakesCurrent(ws: seq<World>, es: seq<Event>, i: nat, k: nat, p: string, u: string)
    requires IsRun(ws, es) && i < k < |ws| && Asked(p, u)
    requires es[i] == Invalidate(p, u) || es[i] == Invalidate(p, "")
    requires forall n :: i <= n < k ==> !Changes(es[n], p, u)
    ensures AnswerIn(ws[k], p, u) == RowOf(ws[k].db, p, u)
  {
    InvalidationIsExact(ws[i].cache, p, es[i].u, p, u);
    StaysCurrent(ws, es, i + 1, k, p, u);
  }

  // ---------------------------------------------------------------- sweeps are unobservable

  predicate AlikeAt(c: Cache, d: Cache, k: string, now: int) {
    (Fresh(c, k, now) <==> Fresh(d, k, now)) && (Fresh(c, k, now) ==> c[k] == d[k])
  }

  /** The caches agree on every entry that would still be used. */
  ghost predicate Alike(c: Cache, d: Cache, now: int) { forall k :: AlikeAt(c, d, k, now) }

  ghost predicate SameBut(w: World, x: World) { Alike(w.cache, x.cache, w.now) && w.db == x.db && w.now == x.now }

  lemma AlikeAfter(w: World, x: World, e: Event)
    requires SameBut(w, x)
    ensures SameBut(Next(w, e), Next(x, e))
    ensures e.Sweep? ==> SameBut(Next(w, e), x)
  {
    var w', x' := Next(w, e), Next(x, e);
    forall k
      ensures AlikeAt(w'.cache, x'.cache, k, w'.now) && (e.Sweep? ==> AlikeAt(w'.cache, x.cache, k, w'.now))
    {
      assert AlikeAt(w.cache, x.cache, k, w.now);
      if e.IsMember? { assert AlikeAt(w.cache, x.cache, KeyOf(e.p, e.u), w.now); }
    }
  }

  /** The answers of a run's reads, in order; a failing read answers nothing. */
  function Answers(w: World, es: seq<Event>): seq<Option<Role>>
    decreases |es|
  {
    if es == [] then []
    else if es[0].IsMember? && !FailsRead(w, es[0]) then
      [AnswerIn(w, es[0].p, es[0].u)] + Answers(Next(w, es[0]), es[1..])
    else Answers(Next(w, es[0]), es[1..])
  }

  function WithoutSweeps(es: seq<Event>): seq<Event> {
    if es == [] then [] else if es[0].Sweep? then WithoutSweeps(es[1..]) else [es[0]] + WithoutSweeps(es[1..])
  }

  lemma {:induction false} SweepsAreUnobservable(w: World, x: World, es: seq<Event>)
    requires SameBut(w, x)
    ensures Answers(w, es) == Answers(x, WithoutSweeps(es))
    decreases |es|
  {
    if es != [] {
      var e, rest := es[0], es[1..];
      AlikeAfter(w, x, e);
      if e.Sweep? {
        SweepsAreUnobservable(Next(w, e), x, rest);
      } else {
        SweepsAreUnobservable(Next(w, e), Next(x, e), rest);
        assert ([e] + WithoutSweeps(rest))[1..] == WithoutSweeps(rest);
        if e.IsMember? {
          assert AlikeAt(w.cache, x.cache, KeyOf(e.p, e.u), w.now);
        }
      }
    }
  }

  // ---------------------------------------------------------------- in the code's own form

  class MembershipCache {
    var entries: Cache

    constructor ()
      ensures entries == map[]
    {
      entries := map[];
    }

    /** `row` is what the query returns, should it be made. */
    method IsProjectMember(p: string, u: string, row: Option<Role>, now: int) returns (member: Option<Role>)
      modifies this
      ensures member == Answer(old(entries), p, u, row, now)
      ensures entries == Read(old(entries), p, u, row, now)
    {
      if u == "" { return None; }
      if !IsUuid(p) { return None; }
      var cacheKey := KeyOf(p, u);
      if cacheKey in entries && now - entries[cacheKey].ts < MEMBERSHIP_TTL {
        return entries[cacheKey].value;
      }
      entries := entries[cacheKey := CacheEntry(row, now)];
      return row;
    }

    method InvalidateMembership(p: string, u: string)
      modifies this
      ensures entries == Invalidated(old(entries), p, u)
    {
      if u != "" {
        entries := entries - {KeyOf(p, u)};
      } else {
        var todo := entries.Keys;
        ghost var before := entries;
        while todo != {}
          invariant todo <= before.Keys && entries.Keys <= before.Keys
          invariant forall k :: k in before ==> (k in entries <==> k in todo || !Drops(p, "", k))
          invariant forall k :: k in entries ==> entries[k] == before[k]
          decreases todo
        {
          var k :| k in todo;
          if HasId(k, p) { entries := entries - {k}; }
          todo := todo - {k};
        }
      }
    }

    method SweepStale(now: int)
      modifies this
      ensures entries == Swept(old(entries), now)
    {
      var todo := entries.Keys;
      ghost var before := entries;
      while todo != {}
        invariant todo <= before.Keys && entries.Keys <= before.Keys
        invariant forall k :: k in before ==> (k in entries <==> k in todo || now - before[k].ts <= MEMBERSHIP_TTL)
        invariant forall k :: k in entries ==> entries[k] == before[k]
        decreases todo
      {
        var k :| k in todo;
        if now - entries[k].ts > MEMBERSHIP_TTL { entries := entries - {k}; }
        todo := todo - {k};
      }
    }
  }
}
