/** WebSocket rooms, per-user connection counts and Y.Doc reference counts, each handler atomic. */
module WsRooms {
  import opened Common

  type ConnId = nat
  type User = string
  type Project = string
  type FileId = string
  type EntryId = nat
  datatype DocKey = DocKey(project: Project, file: FileId)

  const MAX_WS_PER_USER := 10

  /** The state object of one open, counted connection. `entry` is the identity of its client entry. */
  datatype Conn = Conn(user: User, project: Option<Project>, entry: Option<EntryId>, held: set<FileId>)

  datatype State = State(
    conns: map<ConnId, Conn>, rooms: map<Project, set<EntryId>>, counts: map<User, nat>, refs: map<DocKey, nat>,
    nextEntry: EntryId)

  /** How the checks of a join end: no access or locked, a database error, or in the room. */
  datatype JoinOutcome = Refused | Failed | Joined

  datatype Event =
    | Connect(c: ConnId, user: User)
    | Join(c: ConnId, project: Project, outcome: JoinOutcome)
    | Subscribe(c: ConnId, file: FileId, rowExists: bool)
    | Close(c: ConnId)

  const EMPTY := State(map[], map[], map[], map[], 0)

  function CountOf(counts: map<User, nat>, u: User): nat { if u in counts then counts[u] else 0 }

  function Leave(rooms: map<Project, set<EntryId>>, p: Project, e: EntryId): map<Project, set<EntryId>> {
    if p !in rooms then rooms
    else if rooms[p] - {e} == {} then rooms - {p}
    else rooms[p := rooms[p] - {e}]
  }

  /** Leaving whatever room the connection's state names, with whatever entry it still has. */
  function LeaveOwn(rooms: map<Project, set<EntryId>>, conn: Conn): map<Project, set<EntryId>> {
    if conn.project.Some? && conn.entry.Some? then Leave(rooms, conn.project.value, conn.entry.value) else rooms
  }

  function Enter(rooms: map<Project, set<EntryId>>, p: Project, e: EntryId): map<Project, set<EntryId>> {
    rooms[p := (if p in rooms then rooms[p] else {}) + {e}]
  }

  function Release(refs: map<DocKey, nat>, k: DocKey): map<DocKey, nat> {
    if k !in refs then refs else if refs[k] <= 1 then refs - {k} else refs[k := refs[k] - 1]
  }

  /** Releasing the files `held` of one project, whatever the order. */
  function ReleaseAll(refs: map<DocKey, nat>, p: Project, held: set<FileId>): map<DocKey, nat> {
    map k | k in refs && !(k.project == p && k.file in held && refs[k] <= 1)
      :: if k.project == p && k.file in held then refs[k] - 1 else refs[k]
  }

  function DropCount(counts: map<User, nat>, u: User): map<User, nat> {
    var n := if u in counts && counts[u] != 0 then counts[u] - 1 else 0;
    if n == 0 then counts - {u} else counts[u := n]
  }

  predicate Enabled(s: State, e: Event) {
    match e
    case Connect(c, _) => c !in s.conns
    case Join(c, _, _) => c in s.conns
    case Subscribe(c, _, _) => c in s.conns && s.conns[c].project.Some? && s.conns[c].entry.Some?
    case Close(c) => c in s.conns
  }

  function Next(s: State, e: Event): State
    requires Enabled(s, e)
  {
    match e
    case Connect(c, u) =>
      if CountOf(s.counts, u) >= MAX_WS_PER_USER then s
      else s.(conns := s.conns[c := Conn(u, None, None, {})], counts := s.counts[u := CountOf(s.counts, u) + 1])
    case Join(c, p, outcome) =>
      var conn := s.conns[c];
      var left := LeaveOwn(s.rooms, conn);
      if outcome != Joined then s.(conns := s.conns[c := conn.(project := Some(p))], rooms := left)
      else
        s.(conns := s.conns[c := conn.(project := Some(p), entry := Some(s.nextEntry))],
           rooms := Enter(left, p, s.nextEntry), nextEntry := s.nextEntry + 1)
    case Subscribe(c, f, rowExists) =>
      var conn := s.conns[c];
      var k := DocKey(conn.project.value, f);
      if f in conn.held || (k !in s.refs && !rowExists) then s
      else
        s.(conns := s.conns[c := conn.(held := conn.held + {f})],
           refs := s.refs[k := (if k in s.refs then s.refs[k] else 0) + 1])
    case Close(c) =>
      var conn := s.conns[c];
      State(s.conns - {c}, LeaveOwn(s.rooms, conn), DropCount(s.counts, conn.user),
            if conn.project.Some? then ReleaseAll(s.refs, conn.project.value, conn.held) else s.refs, s.nextEntry)
  }

  // ---------------------------------------------------------------- what each event does

  ghost predicate InRoom(rooms: map<Project, set<EntryId>>, p: Project, e: EntryId) { p in rooms && e in rooms[p] }

  /** A connection is accepted, and counted, as long as its user has fewer than ten. */
  lemma ConnectIsExact(s: State, c: ConnId, u: User)
    requires c !in s.conns
    ensures var n := if u in s.counts then s.counts[u] else 0;
            Next(s, Connect(c, u))
            == if n < 10 then s.(conns := s.conns[c := Conn(u, None, None, {})], counts := s.counts[u := n + 1]) else s
  {
  }

  /** A join takes the connection's entry out of the room it named and, if it succeeds, puts a fresh one
      into the room it names now; nobody else moves. */
  lemma JoinIsExact(s: State, c: ConnId, p: Project, outcome: JoinOutcome, q: Project, e: EntryId)
    requires c in s.conns
    ensures var t, conn := Next(s, Join(c, p, outcome)), s.conns[c];
            && t.conns == s.conns[c := Conn(conn.user, Some(p), t.conns[c].entry, conn.held)]
            && t.conns[c].entry == (if outcome == Joined then Some(s.nextEntry) else conn.entry)
            && t.counts == s.counts && t.refs == s.refs
            && t.nextEntry == s.nextEntry + (if outcome == Joined then 1 else 0)
            && (InRoom(t.rooms, q, e)
                <==> (InRoom(s.rooms, q, e) && !(conn.project == Some(q) && conn.entry == Some(e)))
                     || (outcome == Joined && q == p && e == s.nextEntry))
  {
    var conn := s.conns[c];
    if conn.project.Some? && conn.entry.Some? { LeaveMembers(s.rooms, conn.project.value, conn.entry.value, q, e); }
  }

  lemma LeaveMembers(rooms: map<Project, set<EntryId>>, p: Project, own: EntryId, q: Project, e: EntryId)
    ensures InRoom(Leave(rooms, p, own), q, e) <==> InRoom(rooms, q, e) && !(p == q && own == e)
  {
    if InRoom(rooms, p, e) && own != e { assert e in rooms[p] - {own}; }
  }

  /** A subscription is granted when the document is open or its file exists, and counts one reference
      the first time. */
  lemma SubscribeIsExact(s: State, c: ConnId, f: FileId, rowExists: bool, k: DocKey)
    requires Enabled(s, Subscribe(c, f, rowExists))
    ensures var t, conn, doc := Next(s, Subscribe(c, f, rowExists)), s.conns[c], DocKey(s.conns[c].project.value, f);
            && (f in t.conns[c].held <==> f in conn.held || doc in s.refs || rowExists)
            && t.conns == s.conns[c := conn.(held := t.conns[c].held)] && t.conns[c].held - {f} == conn.held - {f}
            && t.rooms == s.rooms && t.counts == s.counts && t.nextEntry == s.nextEntry
            && RefsOf(t.refs, k) == RefsOf(s.refs, k)
                                    + if k == doc && f !in conn.held && (doc in s.refs || rowExists) then 1 else 0
  {
    var conn := s.conns[c];
    assert s.conns[c := conn.(held := conn.held)] == s.conns;
    assert conn.held + {f} - {f} == conn.held - {f};
  }

  ghost function RefsOf(refs: map<DocKey, nat>, k: DocKey): nat { if k in refs then refs[k] else 0 }

  /** A close takes the connection's entry out of its room and one off its user's count, and gives back
      one reference to each document it holds. */
  lemma CloseIsExact(s: State, c: ConnId, q: Project, e: EntryId, u: User, k: DocKey)
    requires c in s.conns
    ensures var t, conn := Next(s, Close(c)), s.conns[c];
            && t.conns == s.conns - {c} && t.nextEntry == s.nextEntry
            && (InRoom(t.rooms, q, e)
                <==> InRoom(s.rooms, q, e) && !(conn.project == Some(q) && conn.entry == Some(e)))
            && CountOf(t.counts, u) == Max(0, CountOf(s.counts, u) - if u == conn.user then 1 else 0)
            && RefsOf(t.refs, k)
               == Max(0, RefsOf(s.refs, k) - if conn.project == Some(k.project) && k.file in conn.held then 1 else 0)
  {
    var conn := s.conns[c];
    if conn.project.Some? && conn.entry.Some? { LeaveMembers(s.rooms, conn.project.value, conn.entry.value, q, e); }
  }

  // ---------------------------------------------------------------- rooms

  ghost predicate Owns(s: State, c: ConnId, p: Project, e: EntryId) {
    c in s.conns && s.conns[c].project == Some(p) && s.conns[c].entry == Some(e)
  }

  /** No room is empty, and a client entry is only in the room its connection's state names. */
  ghost predicate RoomsOk(s: State) {
    && (forall p :: p in s.rooms ==> s.rooms[p] != {})
    && (forall p, e :: p in s.rooms && e in s.rooms[p] ==> e < s.nextEntry && exists c :: Owns(s, c, p, e))
    && (forall c :: c in s.conns && s.conns[c].entry.Some? ==> s.conns[c].entry.value < s.nextEntry)
    && (forall c, d :: c in s.conns && d in s.conns && c != d && s.conns[c].entry.Some? ==>
          s.conns[c].entry != s.conns[d].entry)
  }

  /** What leaving does to membership: exactly one entry of one room goes, and emptied rooms vanish. */
  lemma LeaveIsExact(rooms: map<Project, set<EntryId>>, conn: Conn, p: Project, e: EntryId)
    requires forall q :: q in rooms ==> rooms[q] != {}
    ensures var r := LeaveOwn(rooms, conn);
            && (forall q :: q in r ==> r[q] != {})
            && (p in r && e in r[p] <==>
                  p in rooms && e in rooms[p] && !(conn.project == Some(p) && conn.entry == Some(e)))
  {
    if conn.project == Some(p) && conn.entry.Some? && p in rooms && rooms[p] - {conn.entry.value} == {} {
      assert forall x :: x in rooms[p] ==> x in rooms[p] - {conn.entry.value} || x == conn.entry.value;
    }
  }

  lemma JoinKeepsRooms(s: State, c: ConnId, p: Project, outcome: JoinOutcome)
    requires RoomsOk(s) && c in s.conns
    ensures RoomsOk(Next(s, Join(c, p, outcome)))
    ensures var s' := Next(s, Join(c, p, outcome));
            outcome == Joined ==> Owns(s', c, p, s.nextEntry) && p in s'.rooms && s.nextEntry in s'.rooms[p]
  {
    var s', conn := Next(s, Join(c, p, outcome)), s.conns[c];
    var left := LeaveOwn(s.rooms, conn);
    forall q, e | q in s'.rooms && e in s'.rooms[q]
      ensures e < s'.nextEntry && exists d :: Owns(s', d, q, e)
    {
      LeaveIsExact(s.rooms, conn, q, e);
      if outcome == Joined && q == p && e == s.nextEntry {
        assert Owns(s', c, q, e);
      } else {
        var d :| Owns(s, d, q, e);
        assert d != c;
        assert Owns(s', d, q, e);
      }
    }
    forall q | q in s'.rooms ensures s'.rooms[q] != {} {
      if q in left { LeaveIsExact(s.rooms, conn, q, 0); }
      if outcome == Joined && q == p { assert s.nextEntry in s'.rooms[q]; }
    }
    if outcome == Joined { assert Owns(s', c, p, s.nextEntry); }
  }

  lemma CloseKeepsRooms(s: State, c: ConnId)
    requires RoomsOk(s) && c in s.conns
    ensures RoomsOk(Next(s, Close(c)))
  {
    var s', conn := Next(s, Close(c)), s.conns[c];
    forall q, e | q in s'.rooms && e in s'.rooms[q]
      ensures e < s'.nextEntry && exists d :: Owns(s', d, q, e)
    {
      LeaveIsExact(s.rooms, conn, q, e);
      var d :| Owns(s, d, q, e);
      assert Owns(s', d, q, e);
    }
    forall q | q in s'.rooms ensures s'.rooms[q] != {} { LeaveIsExact(s.rooms, conn, q, 0); }
  }

  lemma SameEntriesKeepRooms(s: State, s': State)
    requires RoomsOk(s) && s'.rooms == s.rooms && s'.nextEntry == s.nextEntry && s.conns.Keys <= s'.conns.Keys
    requires forall c :: c in s.conns ==>
               s'.conns[c].project == s.conns[c].project && s'.conns[c].entry == s.conns[c].entry
    requires forall c :: c in s'.conns && c !in s.conns ==> s'.conns[c].entry == None
    ensures RoomsOk(s')
  {
    forall p, e | p in s'.rooms && e in s'.rooms[p] ensures exists c :: Owns(s', c, p, e) {
      var c :| Owns(s, c, p, e);
      assert Owns(s', c, p, e);
    }
  }

  lemma StepKeepsRooms(s: State, e: Event)
    requires RoomsOk(s) && Enabled(s, e)
    ensures RoomsOk(Next(s, e))
  {
    match e
    case Connect(_, _) => SameEntriesKeepRooms(s, Next(s, e));
    case Join(c, p, outcome) => JoinKeepsRooms(s, c, p, outcome);
    case Subscribe(_, _, _) => SameEntriesKeepRooms(s, Next(s, e));
    case Close(c) => CloseKeepsRooms(s, c);
  }

  // ---------------------------------------------------------------- connection counts

  ghost function ConnsOf(conns: map<ConnId, Conn>, u: User): set<ConnId> {
    set c | c in conns && conns[c].user == u
  }

  ghost predicate CountOk(counts: map<User, nat>, conns: map<ConnId, Conn>, u: User) {
    CountOf(counts, u) == |ConnsOf(conns, u)| && CountOf(counts, u) <= 10
    && (u in counts <==> CountOf(counts, u) > 0)
  }

  /** Per-user counts equal the open connections and never exceed 10. */
  ghost predicate CountsOk(s: State) {
    forall u :: CountOk(s.counts, s.conns, u)
  }

  lemma OneMoreConn(conns: map<ConnId, Conn>, c: ConnId, conn: Conn, u: User)
    requires c !in conns
    ensures |ConnsOf(conns[c := conn], u)| == |ConnsOf(conns, u)| + if u == conn.user then 1 else 0
  {
    assert ConnsOf(conns[c := conn], u) == if u == conn.user then ConnsOf(conns, u) + {c} else ConnsOf(conns, u);
  }

  lemma ConnectKeepsCounts(s: State, c: ConnId, v: User)
    requires CountsOk(s) && c !in s.conns
    ensures CountsOk(Next(s, Connect(c, v)))
  {
    if CountOf(s.counts, v) < MAX_WS_PER_USER {
      var s' := Next(s, Connect(c, v));
      forall u ensures CountOk(s'.counts, s'.conns, u) {
        assert CountOk(s.counts, s.conns, u);
        OneMoreConn(s.conns, c, Conn(v, None, None, {}), u);
      }
    }
  }

  lemma CloseKeepsCounts(s: State, c: ConnId)
    requires CountsOk(s) && c in s.conns
    ensures CountsOk(Next(s, Close(c)))
  {
    var s', v := Next(s, Close(c)), s.conns[c].user;
    forall u ensures CountOk(s'.counts, s'.conns, u) {
      assert CountOk(s.counts, s.conns, u);
      assert u == v ==> c in ConnsOf(s.conns, u);
      assert ConnsOf(s'.conns, u) == if u == v then ConnsOf(s.conns, u) - {c} else ConnsOf(s.conns, u);
    }
  }

  lemma SameUsersKeepCounts(s: State, s': State)
    requires CountsOk(s) && s'.counts == s.counts && s'.conns.Keys == s.conns.Keys
    requires forall c :: c in s.conns ==> s'.conns[c].user == s.conns[c].user
    ensures CountsOk(s')
  {
    forall u ensures CountOk(s'.counts, s'.conns, u) {
      assert CountOk(s.counts, s.conns, u);
      assert ConnsOf(s'.conns, u) == ConnsOf(s.conns, u);
    }
  }

  lemma StepKeepsCounts(s: State, e: Event)
    requires CountsOk(s) && Enabled(s, e)
    ensures CountsOk(Next(s, e))
  {
    match e
    case Connect(c, u) => ConnectKeepsCounts(s, c, u);
    case Join(_, _, _) => SameUsersKeepCounts(s, Next(s, e));
    case Subscribe(_, _, _) => SameUsersKeepCounts(s, Next(s, e));
    case Close(c) => CloseKeepsCounts(s, c);
  }

  // ---------------------------------------------------------------- Y.Doc references

  predicate Holds(conn: Conn, k: DocKey) { conn.project == Some(k.project) && k.file in conn.held }

  ghost function Holders(conns: map<ConnId, Conn>, k: DocKey): set<ConnId> {
    set c | c in conns && Holds(conns[c], k)
  }

  ghost function Bit(b: bool): nat { if b then 1 else 0 }

  /** A connection's new state changes the number of holders by its own part alone. */
  lemma HoldersAfter(conns: map<ConnId, Conn>, c: ConnId, conn: Conn, k: DocKey)
    requires c in conns
    ensures |Holders(conns[c := conn], k)| + Bit(Holds(conns[c], k)) == |Holders(conns, k)| + Bit(Holds(conn, k))
  {
    var others := Holders(conns, k) - {c};
    assert Holders(conns, k) == if Holds(conns[c], k) then others + {c} else others;
    assert Holders(conns[c := conn], k) == if Holds(conn, k) then others + {c} else others;
  }

  /** Each Y.Doc room's reference count equals the open connections that hold it; rooms without one are closed. */
  ghost predicate RefsOk(s: State) {
    && (forall c :: c in s.conns && s.conns[c].held != {} ==> s.conns[c].project.Some?)
    && (forall k :: |Holders(s.conns, k)| == if k in s.refs then s.refs[k] else 0)
    && (forall k :: k in s.refs ==> s.refs[k] > 0)
  }

  lemma SubscribeKeepsRefs(s: State, c: ConnId, f: FileId, rowExists: bool)
    requires RefsOk(s) && Enabled(s, Subscribe(c, f, rowExists))
    ensures RefsOk(Next(s, Subscribe(c, f, rowExists)))
  {
    var s', conn := Next(s, Subscribe(c, f, rowExists)), s.conns[c];
    if s' != s {
      forall k ensures |Holders(s'.conns, k)| == if k in s'.refs then s'.refs[k] else 0 {
        HoldersAfter(s.conns, c, conn.(held := conn.held + {f}), k);
      }
    }
  }

  lemma CloseKeepsRefs(s: State, c: ConnId)
    requires RefsOk(s) && c in s.conns
    ensures RefsOk(Next(s, Close(c)))
  {
    var s', conn := Next(s, Close(c)), s.conns[c];
    forall k ensures |Holders(s'.conns, k)| == if k in s'.refs then s'.refs[k] else 0 {
      if c in Holders(s.conns, k) {
        assert Holders(s'.conns, k) == Holders(s.conns, k) - {c};
      } else {
        assert Holders(s'.conns, k) == Holders(s.conns, k);
      }
    }
  }

  lemma ConnectKeepsRefs(s: State, c: ConnId, u: User)
    requires RefsOk(s) && c !in s.conns
    ensures RefsOk(Next(s, Connect(c, u)))
  {
    forall k ensures Holders(Next(s, Connect(c, u)).conns, k) == Holders(s.conns, k) {}
  }

  lemma JoinMovesConn(s: State, c: ConnId, p: Project, outcome: JoinOutcome, k: DocKey)
    requires c in s.conns
    ensures |Holders(Next(s, Join(c, p, outcome)).conns, k)| + Bit(Holds(s.conns[c], k))
            == |Holders(s.conns, k)| + Bit(k.project == p && k.file in s.conns[c].held)
    ensures Next(s, Join(c, p, outcome)).refs == s.refs
  {
    var s' := Next(s, Join(c, p, outcome));
    HoldersAfter(s.conns, c, s'.conns[c], k);
    assert s'.conns == s.conns[c := s'.conns[c]];
  }

  /** A join, successful or not, keeps the reference counts right exactly when the connection holds
      nothing yet or names the same project again. */
  lemma JoinKeepsRefsIff(s: State, c: ConnId, p: Project, outcome: JoinOutcome)
    requires RefsOk(s) && c in s.conns
    ensures RefsOk(Next(s, Join(c, p, outcome))) <==> s.conns[c].held == {} || s.conns[c].project == Some(p)
  {
    var conn := s.conns[c];
    if conn.held == {} || conn.project == Some(p) {
      forall k { JoinMovesConn(s, c, p, outcome, k); }
    } else {
      var f :| f in conn.held;
      JoinMovesConn(s, c, p, outcome, DocKey(conn.project.value, f));
    }
  }

  /** The connection stays with one project while it holds documents. */
  ghost predicate OneProject(s: State, e: Event) {
    e.Join? && e.c in s.conns ==> s.conns[e.c].held == {} || s.conns[e.c].project == Some(e.project)
  }

  lemma StepKeepsRefs(s: State, e: Event)
    requires RefsOk(s) && Enabled(s, e) && OneProject(s, e)
    ensures RefsOk(Next(s, e))
  {
    match e
    case Connect(c, u) => ConnectKeepsRefs(s, c, u);
    case Join(c, p, outcome) => JoinKeepsRefsIff(s, c, p, outcome);
    case Subscribe(c, f, rowExists) => SubscribeKeepsRefs(s, c, f, rowExists);
    case Close(c) => CloseKeepsRefs(s, c);
  }

  // ---------------------------------------------------------------- whole runs

  ghost predicate IsRun(trace: seq<State>, es: seq<Event>) {
    && |trace| == |es| + 1 && trace[0] == EMPTY
    && forall i :: 0 <= i < |es| ==> Enabled(trace[i], es[i]) && trace[i + 1] == Next(trace[i], es[i])
  }

  lemma EmptyIsOk()
    ensures RoomsOk(EMPTY) && CountsOk(EMPTY) && RefsOk(EMPTY)
  {
    forall u ensures CountOk(EMPTY.counts, EMPTY.conns, u) { assert ConnsOf(EMPTY.conns, u) == {}; }
    forall k ensures Holders(EMPTY.conns, k) == {} {}
  }

  /** Over every run of connects, joins, subscriptions and closes. */
  lemma {:induction false} RunsKeepRoomsAndCounts(trace: seq<State>, es: seq<Event>, i: nat)
    requires IsRun(trace, es) && i <= |es|
    ensures RoomsOk(trace[i]) && CountsOk(trace[i])
  {
    if i == 0 {
      EmptyIsOk();
    } else {
      RunsKeepRoomsAndCounts(trace, es, i - 1);
      StepKeepsRooms(trace[i - 1], es[i - 1]);
      StepKeepsCounts(trace[i - 1], es[i - 1]);
    }
  }

  /** If connections stay with their project, reference counts are right throughout, and once every
      connection is closed no document is held open. */
  lemma {:induction false} RunsKeepRefs(trace: seq<State>, es: seq<Event>, i: nat)
    requires IsRun(trace, es) && i <= |es| && forall k :: 0 <= k < i ==> OneProject(trace[k], es[k])
    ensures RefsOk(trace[i]) && (trace[i].conns == map[] ==> trace[i].refs == map[])
  {
    if i == 0 {
      EmptyIsOk();
    } else {
      RunsKeepRefs(trace, es, i - 1);
      StepKeepsRefs(trace[i - 1], es[i - 1]);
    }
    if trace[i].conns == map[] {
      forall k ensures k !in trace[i].refs { assert Holders(trace[i].conns, k) == {}; }
    }
  }

  /** Reference counts are right in every state of a run exactly when no connection changes its project
      while it holds documents. */
  lemma RunKeepsRefsIff(trace: seq<State>, es: seq<Event>)
    requires IsRun(trace, es)
    ensures (forall k :: 0 <= k <= |es| ==> RefsOk(trace[k]))
            <==> (forall k :: 0 <= k < |es| ==> OneProject(trace[k], es[k]))
  {
    if forall k :: 0 <= k < |es| ==> OneProject(trace[k], es[k]) {
      forall k: nat | k <= |es| ensures RefsOk(trace[k]) { RunsKeepRefs(trace, es, k); }
    }
    if forall k :: 0 <= k <= |es| ==> RefsOk(trace[k]) {
      forall k | 0 <= k < |es| ensures OneProject(trace[k], es[k]) {
        assert RefsOk(trace[k]) && RefsOk(trace[k + 1]);
        if es[k].Join? { JoinKeepsRefsIff(trace[k], es[k].c, es[k].project, es[k].outcome); }
      }
    }
  }

  // ---------------------------------------------------------------- in the code's own form

  class Hub {
    var conns: map<ConnId, Conn>
    var projectRooms: map<Project, set<EntryId>>
    var wsConnectionCounts: map<User, nat>
    var docRefs: map<DocKey, nat>
    var nextEntry: EntryId

    constructor ()
      ensures Current() == EMPTY
    {
      conns, projectRooms, wsConnectionCounts, docRefs, nextEntry := map[], map[], map[], map[], 0;
    }

    function Current(): State
      reads this
    {
      State(conns, projectRooms, wsConnectionCounts, docRefs, nextEntry)
    }

    method OnConnection(c: ConnId, user: User) returns (accepted: bool)
      requires c !in conns
      modifies this`conns, this`wsConnectionCounts
      ensures Current() == Next(old(Current()), Connect(c, user))
      ensures accepted == (CountOf(old(wsConnectionCounts), user) < 10)
    {
      var currentCount := CountOf(wsConnectionCounts, user);
      if currentCount >= MAX_WS_PER_USER { return false; }
      wsConnectionCounts := wsConnectionCounts[user := currentCount + 1];
      conns := conns[c := Conn(user, None, None, {})];
      return true;
    }

    method DeleteFromRoom(p: Project, e: EntryId)
      modifies this`projectRooms
      ensures projectRooms == Leave(old(projectRooms), p, e)
    {
      if p in projectRooms {
        var room := projectRooms[p] - {e};
        if room == {} { projectRooms := projectRooms - {p}; } else { projectRooms := projectRooms[p := room]; }
      }
    }

    method AddToRoom(p: Project, e: EntryId)
      modifies this`projectRooms
      ensures projectRooms == Enter(old(projectRooms), p, e)
    {
      if p !in projectRooms { projectRooms := projectRooms[p := {}]; }
      projectRooms := projectRooms[p := projectRooms[p] + {e}];
    }

    method HandleJoin(c: ConnId, p: Project, outcome: JoinOutcome)
      requires c in conns
      modifies this
      ensures Current() == Next(old(Current()), Join(c, p, outcome))
    {
      var state := conns[c];
      if state.project.Some? && state.entry.Some? { DeleteFromRoom(state.project.value, state.entry.value); }
      assert projectRooms == LeaveOwn(old(projectRooms), state);
      if outcome != Joined {
        conns := conns[c := state.(project := Some(p))];
      } else {
        conns := conns[c := state.(project := Some(p), entry := Some(nextEntry))];
        AddToRoom(p, nextEntry);
        nextEntry := nextEntry + 1;
      }
    }

    method EnsureRoomSubscribed(c: ConnId, f: FileId, rowExists: bool) returns (ok: bool)
      requires Enabled(Current(), Subscribe(c, f, rowExists))
      modifies this`conns, this`docRefs
      ensures Current() == Next(old(Current()), Subscribe(c, f, rowExists))
      ensures ok == (f in conns[c].held)
    {
      var state := conns[c];
      if f in state.held { return true; }
      var k := DocKey(state.project.value, f);
      if k in docRefs {
        docRefs := docRefs[k := docRefs[k] + 1];
      } else if rowExists {
        docRefs := docRefs[k := 1];
      } else {
        return false;
      }
      conns := conns[c := state.(held := state.held + {f})];
      return true;
    }

    method ReleaseYjsRooms(p: Project, held: set<FileId>)
      modifies this`docRefs
      ensures docRefs == ReleaseAll(old(docRefs), p, held)
    {
      var todo := held;
      assert ReleaseAll(docRefs, p, {}) == docRefs;
      while todo != {}
        invariant todo <= held && docRefs == ReleaseAll(old(docRefs), p, held - todo)
        decreases todo
      {
        var f :| f in todo;
        ReleaseOneMore(old(docRefs), p, held - todo, f);
        docRefs := Release(docRefs, DocKey(p, f));
        assert held - (todo - {f}) == (held - todo) + {f};
        todo := todo - {f};
      }
      assert held - todo == held;
    }

    method OnClose(c: ConnId)
      requires c in conns
      modifies this
      ensures Current() == Next(old(Current()), Close(c))
    {
      var state := conns[c];
      wsConnectionCounts := DropCount(wsConnectionCounts, state.user);
      if state.project.Some? && state.entry.Some? { DeleteFromRoom(state.project.value, state.entry.value); }
      if state.project.Some? { ReleaseYjsRooms(state.project.value, state.held); }
      conns := conns - {c};
    }
  }

  lemma ReleaseOneMore(refs: map<DocKey, nat>, p: Project, done: set<FileId>, f: FileId)
    requires f !in done
    ensures Release(ReleaseAll(refs, p, done), DocKey(p, f)) == ReleaseAll(refs, p, done + {f})
  {
  }
}
