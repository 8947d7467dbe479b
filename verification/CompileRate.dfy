/** The fixed-window compile limits per project and per user, and the sweep of stale entries. */
module CompileRate {
  import opened Common

  const COMPILE_RATE_WINDOW := 60_000
  const COMPILE_RATE_MAX: nat := 15
  const USER_COMPILE_RATE_MAX: nat := 30

  datatype Entry = Entry(start: int, count: nat)

  type Table = map<string, Entry>

  datatype State = State(projects: Table, users: Table)

  datatype Event = Check(now: int, project: string, user: Option<string>) | Sweep(now: int)

  /** One more call under `key`: counted in its window, or first of a new one. */
  function Bumped(t: Table, key: string, now: int): Entry {
    if key !in t || now - t[key].start > COMPILE_RATE_WINDOW then Entry(now, 1)
    else Entry(t[key].start, t[key].count + 1)
  }

  predicate Within(t: Table, key: string, now: int, max: nat) { Bumped(t, key, now).count <= max }

  predicate Named(user: Option<string>) { user.Some? && user.value != "" }

  predicate ProjectPasses(s: State, project: string, now: int) { Within(s.projects, project, now, COMPILE_RATE_MAX) }

  predicate Allowed(s: State, project: string, user: Option<string>, now: int) {
    ProjectPasses(s, project, now) && (Named(user) ==> Within(s.users, user.value, now, USER_COMPILE_RATE_MAX))
  }

  function Swept(t: Table, now: int): Table {
    map k | k in t && !(now - t[k].start > COMPILE_RATE_WINDOW * 2) :: t[k]
  }

  function Next(s: State, e: Event): State {
    match e
    case Check(now, p, user) =>
      State(s.projects[p := Bumped(s.projects, p, now)],
            if ProjectPasses(s, p, now) && Named(user) then s.users[user.value := Bumped(s.users, user.value, now)]
            else s.users)
    case Sweep(now) => State(Swept(s.projects, now), Swept(s.users, now))
  }

  function After(s: State, es: seq<Event>): State
    decreases |es|
  {
    if es == [] then s else After(Next(s, es[0]), es[1..])
  }

  /** The answers given to the checks of a run, in order. */
  function Decisions(s: State, es: seq<Event>): seq<bool>
    decreases |es|
  {
    if es == [] then []
    else if es[0].Sweep? then Decisions(Next(s, es[0]), es[1..])
    else [Allowed(s, es[0].project, es[0].user, es[0].now)] + Decisions(Next(s, es[0]), es[1..])
  }

  /** The clock does not run back from `now`. */
  ghost predicate Timed(now: int, es: seq<Event>) {
    && (es != [] ==> now <= es[0].now)
    && forall i, j :: 0 <= i <= j < |es| ==> es[i].now <= es[j].now
  }

  lemma TimedTail(now: int, es: seq<Event>)
    requires Timed(now, es) && es != []
    ensures Timed(es[0].now, es[1..])
  {
    var rest := es[1..];
    if rest != [] { assert rest[0] == es[1]; }
    forall i, j | 0 <= i <= j < |rest| ensures rest[i].now <= rest[j].now {
      assert rest[i] == es[i + 1] && rest[j] == es[j + 1];
    }
  }

  // ---------------------------------------------------------------- what one check answers and counts

  /** The calls counted under the key in a window of at most 60 seconds that is still open. */
  ghost function Used(t: Table, key: string, now: int): nat {
    if key in t && now - t[key].start <= 60_000 then t[key].count else 0
  }

  /** A check passes with fewer than 15 calls of its project and, if it names a user, fewer than 30 of that
      user in the open windows. The project is charged in any case, the user unless the project refused. */
  lemma CheckIsAllowedIff(s: State, now: int, project: string, user: Option<string>)
    ensures Allowed(s, project, user, now)
            <==> Used(s.projects, project, now) < 15
                 && (user in {None, Some("")} || Used(s.users, user.value, now) < 30)
  {
  }

  lemma CheckCharges(s: State, now: int, project: string, user: Option<string>, key: string)
    ensures var t := Next(s, Check(now, project, user));
            && Used(t.projects, key, now) == Used(s.projects, key, now) + (if key == project then 1 else 0)
            && Used(t.users, key, now)
               == Used(s.users, key, now)
                  + if user == Some(key) && key != "" && Used(s.projects, project, now) < 15 then 1 else 0
  {
  }

  /** An open window keeps its start; without one, the call opens it. */
  lemma WindowIsKeptOrOpened(t: Table, key: string, now: int)
    ensures Bumped(t, key, now).start == if key in t && now - t[key].start <= 60_000 then t[key].start else now
  {
  }

  /** A sweep drops the entries whose windows started more than two minutes ago, and no other. */
  lemma SweptIff(t: Table, now: int, key: string)
    ensures key in Swept(t, now) <==> key in t && now - t[key].start <= 120_000
    ensures key in Swept(t, now) ==> Swept(t, now)[key] == t[key]
  {
  }

  // ---------------------------------------------------------------- sweeps are unobservable

  predicate Live(t: Table, key: string, now: int) { key in t && now - t[key].start <= COMPILE_RATE_WINDOW }

  /** The tables agree on every window that is still open. */
  ghost predicate Alike(t: Table, u: Table, now: int) {
    forall k :: (Live(t, k, now) <==> Live(u, k, now)) && (Live(t, k, now) ==> t[k] == u[k])
  }

  lemma AlikeLater(t: Table, u: Table, now: int, later: int)
    requires Alike(t, u, now) && now <= later
    ensures Alike(t, u, later)
  {
    forall k ensures (Live(t, k, later) <==> Live(u, k, later)) && (Live(t, k, later) ==> t[k] == u[k]) {
      assert Live(t, k, later) ==> Live(t, k, now);
      assert Live(u, k, later) ==> Live(u, k, now);
    }
  }

  lemma AlikeBump(t: Table, u: Table, key: string, now: int)
    requires Alike(t, u, now)
    ensures Bumped(t, key, now) == Bumped(u, key, now)
    ensures Alike(t[key := Bumped(t, key, now)], u[key := Bumped(u, key, now)], now)
  {
    assert Live(t, key, now) <==> Live(u, key, now);
    forall k | k != key
      ensures Live(t[key := Bumped(t, key, now)], k, now) <==> Live(t, k, now)
      ensures Live(u[key := Bumped(u, key, now)], k, now) <==> Live(u, k, now)
    {
    }
  }

  lemma AlikeSwept(t: Table, u: Table, now: int)
    requires Alike(t, u, now)
    ensures Alike(Swept(t, now), u, now)
  {
    forall k ensures Live(Swept(t, now), k, now) <==> Live(t, k, now) {}
  }

  function WithoutSweeps(es: seq<Event>): seq<Event> {
    if es == [] then [] else if es[0].Sweep? then WithoutSweeps(es[1..]) else [es[0]] + WithoutSweeps(es[1..])
  }

  lemma {:induction false} SweepsChangeNothingFrom(s: State, u: State, now: int, es: seq<Event>)
    requires Alike(s.projects, u.projects, now) && Alike(s.users, u.users, now) && Timed(now, es)
    ensures Decisions(s, es) == Decisions(u, WithoutSweeps(es))
    decreases |es|
  {
    if es != [] {
      var e, rest := es[0], es[1..];
      AlikeLater(s.projects, u.projects, now, e.now);
      AlikeLater(s.users, u.users, now, e.now);
      TimedTail(now, es);
      match e
      case Sweep(t) =>
        AlikeSwept(s.projects, u.projects, t);
        AlikeSwept(s.users, u.users, t);
        SweepsChangeNothingFrom(Next(s, e), u, t, rest);
      case Check(t, p, user) =>
        AlikeBump(s.projects, u.projects, p, t);
        if Named(user) { AlikeBump(s.users, u.users, user.value, t); }
        SweepsChangeNothingFrom(Next(s, e), Next(u, e), t, rest);
        assert WithoutSweeps(es) == [e] + WithoutSweeps(rest);
        assert ([e] + WithoutSweeps(rest))[1..] == WithoutSweeps(rest);
    }
  }

  /** However sweeps are placed in a run, every decision is what it would be without them. */
  lemma SweepsAreUnobservable(s: State, now: int, es: seq<Event>)
    requires Timed(now, es)
    ensures Decisions(s, es) == Decisions(s, WithoutSweeps(es))
  {
    SweepsChangeNothingFrom(s, s, now, es);
  }

  // ---------------------------------------------------------------- how many calls get through

  datatype Key = OfProject(id: string) | OfUser(id: string)

  function MaxOf(k: Key): nat { if k.OfProject? then COMPILE_RATE_MAX else USER_COMPILE_RATE_MAX }

  function SlotOf(s: State, k: Key): Option<Entry> {
    var t := if k.OfProject? then s.projects else s.users;
    if k.id in t then Some(t[k.id]) else None
  }

  predicate Concerns(e: Event, k: Key) {
    e.Check? && if k.OfProject? then e.project == k.id else Named(e.user) && e.user.value == k.id
  }

  /** The event is a call under `k` that gets through. */
  predicate Counts(s: State, e: Event, k: Key) { Concerns(e, k) && Allowed(s, e.project, e.user, e.now) }

  function Admitted(s: State, es: seq<Event>, k: Key): nat
    decreases |es|
  {
    if es == [] then 0
    else (if Counts(s, es[0], k) then 1 else 0) + Admitted(Next(s, es[0]), es[1..], k)
  }

  /** Entries count at least their first call and do not start in the future. */
  ghost predicate Sane(s: State, now: int) {
    && (forall k :: k in s.projects ==> s.projects[k].count > 0 && s.projects[k].start <= now)
    && (forall k :: k in s.users ==> s.users[k].count > 0 && s.users[k].start <= now)
  }

  lemma StepKeepsSane(s: State, now: int, e: Event)
    requires Sane(s, now) && now <= e.now
    ensures Sane(Next(s, e), e.now)
  {
  }

  /** Every run leads to such a state. */
  lemma {:induction false} RunsAreSane(s: State, now: int, es: seq<Event>)
    requires Sane(s, now) && Timed(now, es)
    ensures Sane(After(s, es), if es == [] then now else es[|es| - 1].now)
    decreases |es|
  {
    if es != [] {
      StepKeepsSane(s, now, es[0]);
      TimedTail(now, es);
      RunsAreSane(Next(s, es[0]), es[0].now, es[1..]);
    }
  }

  /** How one event may move one entry. */
  predicate Moves(before: Option<Entry>, now: int, after: Option<Entry>, through: bool, max: nat) {
    || (after == before && !through)
    || (before.Some? && now - before.value.start > 2 * COMPILE_RATE_WINDOW && after == None && !through)
    || ((before == None || now - before.value.start > COMPILE_RATE_WINDOW) && after == Some(Entry(now, 1)))
    || (before.Some? && now - before.value.start <= COMPILE_RATE_WINDOW
        && after == Some(Entry(before.value.start, before.value.count + 1)) && (through ==> before.value.count < max))
  }

  lemma StepMoves(s: State, e: Event, k: Key)
    ensures Moves(SlotOf(s, k), e.now, SlotOf(Next(s, e), k), Counts(s, e, k), MaxOf(k))
  {
  }

  /** What an entry says about the `n` calls let through since time `t`. */
  predicate Accounts(slot: Option<Entry>, t: int, n: nat, max: nat) {
    match slot
    case None => n == 0
    case Some(e) =>
      && e.count > 0
      && (e.start < t - COMPILE_RATE_WINDOW ==> n == 0)
      && (e.start < t ==> n <= Min(max, e.count) - 1)
      && (e.start == t ==> n <= Min(max, e.count))
      && (e.start > t ==> n <= max - 1 + Min(max, e.count))
  }

  lemma MovesKeepAccount(before: Option<Entry>, now: int, after: Option<Entry>, through: bool, t: int, n: nat, max: nat)
    requires max > 0 && Moves(before, now, after, through, max) && Accounts(before, t, n, max)
    requires t <= now <= t + COMPILE_RATE_WINDOW
    ensures Accounts(after, t, n + if through then 1 else 0, max)
  {
  }

  lemma {:induction false} AccountIsKept(s: State, now: int, es: seq<Event>, k: Key, t: int, n: nat)
    requires Timed(now, es) && t <= now && (es != [] ==> es[|es| - 1].now <= t + COMPILE_RATE_WINDOW)
    requires Accounts(SlotOf(s, k), t, n, MaxOf(k))
    ensures Accounts(SlotOf(After(s, es), k), t, n + Admitted(s, es, k), MaxOf(k))
    decreases |es|
  {
    if es != [] {
      StepMoves(s, es[0], k);
      var more := if Counts(s, es[0], k) then 1 else 0;
      MovesKeepAccount(SlotOf(s, k), es[0].now, SlotOf(Next(s, es[0]), k), Counts(s, es[0], k), t, n, MaxOf(k));
      TimedTail(now, es);
      AccountIsKept(Next(s, es[0]), es[0].now, es[1..], k, t, n + more);
    }
  }

  /** In any 60 seconds of any run, fewer than twice the limit get through for one project or one user. */
  lemma SixtySecondsAreBounded(s: State, now: int, es: seq<Event>, k: Key)
    requires Sane(s, now) && Timed(now, es) && es != [] && es[|es| - 1].now - es[0].now <= 60_000
    ensures Admitted(s, es, k) <= if k.OfProject? then 29 else 59
  {
    AccountIsKept(s, es[0].now, es, k, es[0].now, 0);
  }

  /** Calls in a window that was already open when they began: within the limit, its first call included. */
  lemma OneWindowIsBounded(s: State, now: int, es: seq<Event>, k: Key)
    requires Sane(s, now) && Timed(now, es) && es != [] && es[|es| - 1].now - es[0].now <= 60_000
    requires SlotOf(After(s, es), k).Some? && SlotOf(After(s, es), k).value.start <= es[0].now
    ensures Admitted(s, es, k) <= if k.OfProject? then 15 else 30
  {
    AccountIsKept(s, es[0].now, es, k, es[0].now, 0);
  }

  // ---------------------------------------------------------------- the bound is reached

  function Calls(now: int, project: string, n: nat): seq<Event> { seq(n, _ => Check(now, project, None)) }

  lemma {:induction false} CallsGetThrough(s: State, now: int, p: string, n: nat)
    requires p in s.projects && now - s.projects[p].start <= COMPILE_RATE_WINDOW
    requires s.projects[p].count + n <= COMPILE_RATE_MAX
    ensures Admitted(s, Calls(now, p, n), OfProject(p)) == n
    ensures After(s, Calls(now, p, n))
         == State(s.projects[p := Entry(s.projects[p].start, s.projects[p].count + n)], s.users)
    decreases n
  {
    if n == 0 {
      assert s.projects[p := s.projects[p]] == s.projects;
    } else {
      var s' := Next(s, Check(now, p, None));
      assert Calls(now, p, n)[1..] == Calls(now, p, n - 1);
      CallsGetThrough(s', now, p, n - 1);
      assert s'.projects[p := Entry(s.projects[p].start, s.projects[p].count + n)]
          == s.projects[p := Entry(s.projects[p].start, s.projects[p].count + n)];
    }
  }

  lemma {:induction false} AdmittedAppend(s: State, es: seq<Event>, fs: seq<Event>, k: Key)
    ensures Admitted(s, es + fs, k) == Admitted(s, es, k) + Admitted(After(s, es), fs, k)
    decreases |es|
  {
    if es == [] {
      assert es + fs == fs;
    } else {
      assert (es + fs)[0] == es[0] && (es + fs)[1..] == es[1..] + fs;
      AdmittedAppend(Next(s, es[0]), es[1..], fs, k);
    }
  }

  /** One call at 0, then 14 at the last millisecond of its window and 15 at the first of the next:
      29 of them within two milliseconds. */
  lemma BoundIsReached(p: string)
    ensures var s := Next(State(map[], map[]), Check(0, p, None));
            var es := Calls(60_000, p, 14) + ([Check(60_001, p, None)] + Calls(60_001, p, 14));
            Admitted(s, es, OfProject(p)) == 29
  {
    var s, k := Next(State(map[], map[]), Check(0, p, None)), OfProject(p);
    CallsGetThrough(s, 60_000, p, 14);
    var s1 := After(s, Calls(60_000, p, 14));
    var first := [Check(60_001, p, None)];
    AdmittedAppend(s, Calls(60_000, p, 14), first + Calls(60_001, p, 14), k);
    AdmittedAppend(s1, first, Calls(60_001, p, 14), k);
    var s2 := Next(s1, first[0]);
    assert first[1..] == [] && After(s1, first) == After(s2, []) == s2;
    assert Admitted(s1, first, k) == 1 + Admitted(s2, [], k);
    CallsGetThrough(s2, 60_001, p, 14);
  }

  // ---------------------------------------------------------------- in the code's own form

  class RateLimiter {
    var compileRateMap: Table
    var userCompileRateMap: Table

    constructor ()
      ensures Current() == State(map[], map[])
    {
      compileRateMap, userCompileRateMap := map[], map[];
    }

    function Current(): State
      reads this
    {
      State(compileRateMap, userCompileRateMap)
    }

    method CheckCompileRate(projectId: string, userId: Option<string>, now: int) returns (ok: bool)
      modifies this
      ensures Current() == Next(old(Current()), Check(now, projectId, userId))
      ensures ok == Allowed(old(Current()), projectId, userId, now)
      ensures ok <==> Used(old(compileRateMap), projectId, now) < 15
                      && (userId in {None, Some("")} || Used(old(userCompileRateMap), userId.value, now) < 30)
    {
      if projectId !in compileRateMap || now - compileRateMap[projectId].start > COMPILE_RATE_WINDOW {
        compileRateMap := compileRateMap[projectId := Entry(now, 0)];
      }
      var entry := compileRateMap[projectId].(count := compileRateMap[projectId].count + 1);
      compileRateMap := compileRateMap[projectId := entry];
      if entry.count > COMPILE_RATE_MAX { return false; }
      if userId.Some? && userId.value != "" {
        var user := userId.value;
        if user !in userCompileRateMap || now - userCompileRateMap[user].start > COMPILE_RATE_WINDOW {
          userCompileRateMap := userCompileRateMap[user := Entry(now, 0)];
        }
        var userEntry := userCompileRateMap[user].(count := userCompileRateMap[user].count + 1);
        userCompileRateMap := userCompileRateMap[user := userEntry];
        if userEntry.count > USER_COMPILE_RATE_MAX { return false; }
      }
      return true;
    }

    method SweepStale(now: int)
      modifies this
      ensures Current() == Next(old(Current()), Sweep(now))
    {
      compileRateMap := SweepTable(compileRateMap, now);
      userCompileRateMap := SweepTable(userCompileRateMap, now);
    }
  }

  /** Visiting each entry once and deleting the stale ones. */
  method SweepTable(t: Table, now: int) returns (left: Table)
    ensures left == Swept(t, now)
  {
    left := t;
    var todo := t.Keys;
    while todo != {}
      invariant todo <= t.Keys && left.Keys <= t.Keys
      invariant forall k :: k in todo ==> k in left
      invariant forall k :: k in left ==> left[k] == t[k] && (k in todo || now - t[k].start <= COMPILE_RATE_WINDOW * 2)
      invariant forall k :: k in t && now - t[k].start <= COMPILE_RATE_WINDOW * 2 ==> k in left
      decreases todo
    {
      var k :| k in todo;
      if now - left[k].start > COMPILE_RATE_WINDOW * 2 { left := left - {k}; }
      todo := todo - {k};
    }
  }
}
