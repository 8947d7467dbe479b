/** The whole Y.Doc tier as a transition system: one stream read through a consumer group, its pending
    list, the lock table, the stored rows and any number of workers. Each event is atomic; a dispatch,
    a renewal pass and a shutdown are the functions of `YjsDispatch` and `YjsWorker`. */
module YjsCluster {
  import opened Common
  import opened YjsDispatch
  import W = YjsWorker

  /** A live worker: its rooms, and the entries handed to its read loop or claimed by its reclaimer
      and not dispatched yet. */
  datatype Node = Node(local: Local, inbox: multiset<nat>, claimed: multiset<nat>)

  datatype Record = Record(id: nat, req: Request, outcome: Outcome, merged: bool, readLoop: bool)

  /** `base` is the document each file was created with, `history` the log of dispatches. */
  datatype Cluster = Cluster(
    base: map<Room, Doc>, stream: seq<seq<string>>, next: nat, pending: map<nat, WorkerId>, acked: set<nat>,
    shared: Shared, nodes: map<WorkerId, Node>, history: seq<Record>)

  /** A debounced snapshot is written, fails, or is skipped as "empty over non-empty" (which also
      clears the dirty flag). */
  datatype Save = Written | Failed | Skipped

  datatype Event =
    | Publish(raw: seq<string>)
    | CreateFile(room: Room, doc: Doc)
    | DeleteFile(room: Room)
    | Start(w: WorkerId)
    | Read(w: WorkerId, count: nat)
    | Claim(w: WorkerId, ids: set<nat>)
    | Handle(w: WorkerId, id: nat, readLoop: bool, world: World, ackAnswers: bool)
    | Renew(w: WorkerId, unanswered: set<Room>)
    | Snapshot(w: WorkerId, room: Room, save: Save)
    | Shutdown(w: WorkerId, stored: set<Room>, unlocked: set<Room>)
    | Crash(w: WorkerId)
    | Expire(room: Room)

  ghost predicate Enabled(s: Cluster, e: Event) {
    match e
    case Publish(_) => true
    case CreateFile(r, _) => r !in s.base
    case DeleteFile(_) => true
    case Start(w) => w !in s.nodes
    case Read(w, n) => w in s.nodes && s.nodes[w].inbox == multiset{} && n <= 32 && s.next + n <= |s.stream|
    case Claim(w, ids) => w in s.nodes && ids <= s.pending.Keys
    case Handle(w, id, readLoop, _, _) =>
      w in s.nodes && id < |s.stream| && id in (if readLoop then s.nodes[w].inbox else s.nodes[w].claimed)
    case Renew(w, _) => w in s.nodes
    case Snapshot(w, r, _) => w in s.nodes && r in s.nodes[w].local.rooms
    case Shutdown(w, _, _) => w in s.nodes
    case Crash(w) => w in s.nodes
    case Expire(_) => true
  }

  /** The ids `lo`, ..., `lo + n - 1`. */
  ghost function Span(lo: nat, n: nat): (ids: set<nat>)
    ensures forall i :: i in ids <==> lo <= i < lo + n
  {
    if n == 0 then {} else Span(lo, n - 1) + {lo + n - 1}
  }

  ghost function HandleEntry(s: Cluster, w: WorkerId, id: nat, readLoop: bool, world: World, acks: bool): Cluster
    requires w in s.nodes && id < |s.stream|
  {
    var req := Decode(s.stream[id]);
    var f := Dispatch(w, req, world, s.nodes[w].local, s.shared);
    Handled(s, w, Record(id, req, f.outcome, Merges(req, world, f.outcome), readLoop), f, acks)
  }

  /** The bookkeeping around one dispatch with effect `f`. */
  ghost function Handled(s: Cluster, w: WorkerId, d: Record, f: Effect, acks: bool): Cluster
    requires w in s.nodes
  {
    var n := s.nodes[w];
    var n' := if d.readLoop then Node(f.local, n.inbox - multiset{d.id}, n.claimed)
              else Node(f.local, n.inbox, n.claimed - multiset{d.id});
    var acked := acks && Settles(d.outcome, d.readLoop) && d.id in s.pending;
    s.(nodes := s.nodes[w := n'], shared := f.shared, history := s.history + [d],
       pending := if acked then s.pending - {d.id} else s.pending,
       acked := if acked then s.acked + {d.id} else s.acked)
  }

  ghost function Next(s: Cluster, e: Event): Cluster
    requires Enabled(s, e)
  {
    match e
    case Publish(raw) => s.(stream := s.stream + [raw])
    case CreateFile(r, d) => s.(base := s.base[r := d], shared := s.shared.(rows := s.shared.rows[r := d]))
    case DeleteFile(r) => s.(shared := s.shared.(rows := s.shared.rows - {r}))
    case Start(w) => s.(nodes := s.nodes[w := Node(Local({}, map[]), multiset{}, multiset{})])
    case Read(w, n) =>
      s.(next := s.next + n,
         pending := map id: nat | id in s.pending.Keys + Span(s.next, n)
                      :: if id in Span(s.next, n) then w else s.pending[id],
         nodes := s.nodes[w := s.nodes[w].(inbox := multiset(Span(s.next, n)))])
    case Claim(w, ids) =>
      s.(pending := map id: nat | id in s.pending :: if id in ids then w else s.pending[id],
         nodes := s.nodes[w := s.nodes[w].(claimed := s.nodes[w].claimed + multiset(ids))])
    case Handle(w, id, readLoop, world, acks) => HandleEntry(s, w, id, readLoop, world, acks)
    case Renew(w, unanswered) =>
      var l := s.nodes[w].local;
      s.(nodes := s.nodes[w := s.nodes[w].(local := l.(held := Renewed(w, l.held, unanswered, s.shared.locks)))])
    case Snapshot(w, r, save) =>
      var l := s.nodes[w].local;
      if !l.rooms[r].dirty || save == Failed then s
      else s.(shared := s.shared.(rows := Persist(s.shared.rows, r, l.rooms[r], save == Written)),
              nodes := s.nodes[w := s.nodes[w].(local := l.(rooms := l.rooms[r := l.rooms[r].(dirty := false)]))])
    case Shutdown(w, stored, unlocked) =>
      s.(shared := W.Drained(w, s.nodes[w].local, stored, unlocked, s.shared), nodes := s.nodes - {w})
    case Crash(w) => s.(nodes := s.nodes - {w})
    case Expire(r) => s.(shared := s.shared.(locks := s.shared.locks - {r}))
  }

  ghost predicate Initial(s: Cluster) {
    && s.nodes == map[] && s.shared.locks == map[] && s.base == s.shared.rows && s.history == []
    && s.next == 0 && s.pending == map[] && s.acked == {}
  }

  /** `trace` lists the states a run of the events `es` goes through. */
  ghost predicate IsRun(trace: seq<Cluster>, es: seq<Event>) {
    && |trace| == |es| + 1
    && forall i :: 0 <= i < |es| ==> Enabled(trace[i], es[i]) && trace[i + 1] == Next(trace[i], es[i])
  }

  // ---------------------------------------------------------------- what has been applied so far

  /** The updates successfully applied to `r`, redeliveries included. */
  ghost function AppliedTo(r: Room, history: seq<Record>): Doc {
    set d | d in history && d.merged && d.req.Apply? && d.req.room == r && d.req.update.Some? :: d.req.update.value
  }

  ghost function Merged(s: Cluster): map<Room, Doc> {
    map r | r in s.base :: s.base[r] + AppliedTo(r, s.history)
  }

  lemma AppliedAppend(r: Room, history: seq<Record>, d: Record)
    ensures AppliedTo(r, history + [d]) == AppliedTo(r, history) + AppliedTo(r, [d])
  {
    assert forall x :: x in history + [d] <==> x in history || x in [d];
  }

  // ---------------------------------------------------------------- exclusive, lossless holding

  ghost predicate HolderOk(w: WorkerId, l: Local, sh: Shared, m: map<Room, Doc>) {
    && l.held == l.rooms.Keys
    && forall r :: r in l.held ==>
         && r in sh.locks && sh.locks[r] == w && l.rooms[r].refs == 1
         && r in m && l.rooms[r].doc == m[r]
         && (!l.rooms[r].dirty && r in sh.rows ==> sh.rows[r] == m[r])
  }

  type Nodes = map<WorkerId, Node>

  ghost predicate Holds(nodes: Nodes, w: WorkerId, r: Room) { w in nodes && r in nodes[w].local.held }

  ghost predicate Unheld(nodes: Nodes, r: Room) { forall w :: !Holds(nodes, w, r) }

  /** Every worker is a proper holder of its rooms, and a room without a holder is up to date on disk. */
  ghost predicate SafeWith(nodes: Nodes, sh: Shared, m: map<Room, Doc>) {
    && sh.rows.Keys <= m.Keys
    && (forall w :: w in nodes ==> HolderOk(w, nodes[w].local, sh, m))
    && (forall r :: r in sh.rows && Unheld(nodes, r) ==> sh.rows[r] == m[r])
  }

  ghost predicate Safe(s: Cluster) {
    && SafeWith(s.nodes, s.shared, Merged(s))
    && (forall d :: d in s.history && d.merged ==> d.req.Apply? && d.req.room in s.base)
  }

  /** The stored row of `r`, if there is one, is the merged document. */
  ghost predicate UpToDate(s: Cluster, r: Room) {
    r in s.shared.rows ==> r in s.base && s.shared.rows[r] == Merged(s)[r]
  }

  /** An apply or state request that opens its room although the row could not be read. */
  predicate OpensBlind(req: Request, world: World, l: Local, sh: Shared) {
    && GoodPayload(req) && req.room !in l.held && req.room !in l.rooms && req.room !in sh.locks
    && world.lock.Answered? && !world.rowReadable
  }

  /** The document such a request leaves in the room: empty, or the update it applied. */
  function Opened(req: Request, world: World): Doc {
    if req.Apply? && req.update.Some? && world.decodable then {req.update.value} else {}
  }

  /** When one handled entry loses nothing: what a blind opening finds is all there was, and a released
      room whose final snapshot was not stored is up to date already. */
  ghost predicate LosslessHandle(s: Cluster, w: WorkerId, req: Request, world: World)
    requires w in s.nodes
  {
    var l := s.nodes[w].local;
    && (OpensBlind(req, world, l, s.shared) ==> req.room in s.base && Merged(s)[req.room] <= Opened(req, world))
    && (req.Release? && req.room in l.held && !world.snapshotStored ==> UpToDate(s, req.room))
  }

  /** The events that lose nothing in a safe state; `StepSafeIff` shows that there are no others. */
  ghost predicate Benign(s: Cluster, e: Event)
    requires Enabled(s, e)
  {
    match e
    case Handle(w, id, _, world, _) => LosslessHandle(s, w, Decode(s.stream[id]), world)
    case Snapshot(w, r, save) => save == Skipped && s.nodes[w].local.rooms[r].dirty ==> UpToDate(s, r)
    case Shutdown(w, stored, _) => forall r :: r in s.nodes[w].local.held ==> r in stored || UpToDate(s, r)
    case Crash(w) => forall r :: r in s.nodes[w].local.held ==> UpToDate(s, r)
    case Expire(r) => Unheld(s.nodes, r)
    case _ => true
  }

  /** Events that are benign whatever the state: no lock expiry, no crash, the stored document can be
      read when a room is opened, and final snapshots are written. */
  ghost predicate Calm(s: Cluster, e: Event) {
    match e
    case Handle(_, _, _, world, _) => world.rowReadable && world.snapshotStored
    case Snapshot(_, _, save) => save != Skipped
    case Shutdown(w, stored, _) => w in s.nodes ==> s.nodes[w].local.held <= stored
    case Crash(_) => false
    case Expire(_) => false
    case _ => true
  }

  /** The dispatching worker stays a proper holder of what it holds: one lemma a request kind. */
  ghost predicate HolderGrows(r0: Room, u: Doc, m: map<Room, Doc>, m': map<Room, Doc>) {
    m'.Keys == m.Keys && forall r :: r in m ==> m'[r] == if r == r0 then m[r] + u else m[r]
  }

  ghost predicate FreeRowsCurrent(sh: Shared, m: map<Room, Doc>) {
    sh.rows.Keys <= m.Keys && forall r :: r in sh.rows && r !in sh.locks ==> sh.rows[r] == m[r]
  }

  /** Admission: winning a free room finds the merged document in its row. */
  lemma AdmitKeepsHolder(w: WorkerId, r: Room, good: bool, world: World, l: Local, sh: Shared, m: map<Room, Doc>)
    requires HolderOk(w, l, sh, m) && world.rowReadable && FreeRowsCurrent(sh, m)
    ensures var (a, sh1) := Admit(w, r, good, world, l, sh);
            HolderOk(w, if a.Admitted? then a.local else l, sh1, m)
  {
    var (a, sh1) := Admit(w, r, good, world, l, sh);
    if a.Admitted? && r !in l.held {
      assert a.local.rooms == l.rooms[r := RoomState(sh.rows[r], 1, false)];
    }
  }

  /** What admission can do to the shared state: take or give back the lock of `r` when it was free. */
  lemma AdmitFrame(w: WorkerId, r: Room, good: bool, world: World, l: Local, sh: Shared)
    ensures var (a, sh1) := Admit(w, r, good, world, l, sh);
            && sh1.rows == sh.rows && sh1.replies == sh.replies
            && (a.Admitted? ==> r in a.local.held && l.held <= a.local.held <= l.held + {r})
            && (a.Admitted? ==> r in l.held || (r !in sh.locks && r in sh1.locks))
            && (forall q :: q in sh.locks ==> q in sh1.locks && sh1.locks[q] == sh.locks[q])
  {
  }

  lemma MergeKeepsHolder(w: WorkerId, r: Room, u: Update, decodable: bool, l: Local, sh: Shared,
                         m: map<Room, Doc>, m': map<Room, Doc>)
    requires HolderOk(w, l, sh, m) && r in l.held && HolderGrows(r, if decodable then {u} else {}, m, m')
    ensures HolderOk(w, ApplyUpdate(l, r, u, decodable), sh, m')
  {
    var l' := ApplyUpdate(l, r, u, decodable);
    forall q | q in l'.held ensures m'[q] == l'.rooms[q].doc {}
  }

  lemma ApplyKeepsHolder(w: WorkerId, r: Room, u: Option<string>, world: World, l: Local, sh: Shared,
                         m: map<Room, Doc>, m': map<Room, Doc>)
    requires HolderOk(w, l, sh, m) && world.rowReadable && FreeRowsCurrent(sh, m)
    requires var f := DispatchApply(w, r, u, world, l, sh);
             HolderGrows(r, if Merges(Apply(r, u), world, f.outcome) then {u.value} else {}, m, m')
    ensures var f := DispatchApply(w, r, u, world, l, sh); HolderOk(w, f.local, f.shared, m')
  {
    AdmitKeepsHolder(w, r, GoodUpdate(u), world, l, sh, m);
    AdmitFrame(w, r, GoodUpdate(u), world, l, sh);
    var (a, sh1) := Admit(w, r, GoodUpdate(u), world, l, sh);
    if a.Admitted? {
      MergeKeepsHolder(w, r, u.value, world.decodable, a.local, sh1, m, m');
    } else {
      forall q | q in m ensures m'[q] == m[q] {}
      assert m' == m;
    }
  }

  lemma StateKeepsHolder(w: WorkerId, r: Room, a: Option<string>, world: World, l: Local, sh: Shared, m: map<Room, Doc>)
    requires HolderOk(w, l, sh, m) && world.rowReadable && FreeRowsCurrent(sh, m)
    ensures var f := DispatchState(w, r, a, world, l, sh); HolderOk(w, f.local, f.shared, m)
  {
    AdmitKeepsHolder(w, r, GoodReplyTo(a), world, l, sh, m);
  }

  lemma ReleaseKeepsHolder(w: WorkerId, r: Room, world: World, l: Local, sh: Shared, m: map<Room, Doc>)
    requires HolderOk(w, l, sh, m)
    ensures var f := DispatchRelease(w, r, world, l, sh); HolderOk(w, f.local, f.shared, m)
  {
    if r in l.held {
      var f := DispatchRelease(w, r, world, l, sh);
      assert f.local == Local(l.held - {r}, l.rooms - {r});
    }
  }

  /** Another worker's rooms are out of the dispatcher's reach: their locks name somebody else. */
  lemma DispatchSparesOthers(w: WorkerId, req: Request, world: World, l: Local, sh: Shared, m: map<Room, Doc>, r: Room)
    requires HolderOk(w, l, sh, m) && r in sh.locks && sh.locks[r] != w
    ensures var f := Dispatch(w, req, world, l, sh);
            && r in f.shared.locks && f.shared.locks[r] == sh.locks[r] && r !in f.local.held
            && !(Merges(req, world, f.outcome) && req.room == r)
  {
    assert r !in l.held;
    if req.Apply? || req.State? {
      AdmitFrame(w, req.room, GoodPayload(req), world, l, sh);
    }
  }

  /** Rows change only when the room is released, and then they take the holder's document. */
  lemma DispatchRows(w: WorkerId, req: Request, world: World, l: Local, sh: Shared, m: map<Room, Doc>)
    requires HolderOk(w, l, sh, m)
    ensures var f := Dispatch(w, req, world, l, sh);
            && f.shared.rows.Keys == sh.rows.Keys
            && (forall r :: r in sh.rows && r !in l.held ==> f.shared.rows[r] == sh.rows[r])
            && (forall r :: r in sh.rows && r in l.held && r !in f.local.held && world.snapshotStored ==>
                  f.shared.rows[r] == m[r])
            && (Merges(req, world, f.outcome) ==> req.room in f.local.held)
  {
    match req
    case Malformed =>
    case Unknown(_) =>
    case Apply(r, u) => EntryKeepsRows(w, req, world, l, sh);
    case State(r, a) => EntryKeepsRows(w, req, world, l, sh);
    case Release(r) =>
      if r in l.held {
        assert Dispatch(w, req, world, l, sh).shared.rows == Persist(sh.rows, r, l.rooms[r], world.snapshotStored);
      }
  }

  lemma EntryKeepsRows(w: WorkerId, req: Request, world: World, l: Local, sh: Shared)
    requires req.Apply? || req.State?
    ensures var f := Dispatch(w, req, world, l, sh);
            && f.shared.rows == sh.rows && l.held <= f.local.held
            && (f.outcome == Done ==> req.room in f.local.held)
  {
    AdmitFrame(w, req.room, GoodPayload(req), world, l, sh);
  }

  lemma HandledMerges(s: Cluster, w: WorkerId, d: Record, f: Effect, acks: bool)
    requires w in s.nodes && (d.merged ==> d.req.Apply? && d.req.update.Some?)
    ensures var s' := Handled(s, w, d, f, acks);
            && Merged(s').Keys == Merged(s).Keys
            && forall r :: r in s.base ==>
                 Merged(s')[r] == Merged(s)[r] + if d.merged && d.req.room == r then {d.req.update.value} else {}
  {
    var s' := Handled(s, w, d, f, acks);
    forall r | r in s.base
      ensures Merged(s')[r] == Merged(s)[r] + if d.merged && d.req.room == r then {d.req.update.value} else {}
    {
      AppliedAppend(r, s.history, d);
      assert d in [d];
      assert AppliedTo(r, [d]) == if d.merged && d.req.room == r then {d.req.update.value} else {};
    }
  }

  lemma DispatchKeepsHolder(w: WorkerId, req: Request, world: World, l: Local, sh: Shared,
                            m: map<Room, Doc>, m': map<Room, Doc>)
    requires HolderOk(w, l, sh, m) && world.rowReadable && FreeRowsCurrent(sh, m) && m'.Keys == m.Keys
    requires var f := Dispatch(w, req, world, l, sh);
             forall r :: r in m ==>
               m'[r] == m[r] + if Merges(req, world, f.outcome) && req.room == r then {req.update.value} else {}
    ensures var f := Dispatch(w, req, world, l, sh); HolderOk(w, f.local, f.shared, m')
  {
    if !req.Apply? {
      forall r | r in m ensures m'[r] == m[r] {}
      assert m' == m;
    }
    match req
    case Malformed =>
    case Unknown(_) =>
    case Apply(r, u) => ApplyKeepsHolder(w, r, u, world, l, sh, m, m');
    case State(r, a) => StateKeepsHolder(w, r, a, world, l, sh, m);
    case Release(r) => ReleaseKeepsHolder(w, r, world, l, sh, m);
  }

  /** One worker changes its rooms, its own locks, and the rows of rooms it gives up. */
  lemma OneWorkerKeepsSafe(nodes: Nodes, nodes': Nodes, sh: Shared, sh': Shared, m: map<Room, Doc>, m': map<Room, Doc>,
                           w: WorkerId)
    requires SafeWith(nodes, sh, m) && w in nodes && nodes'.Keys == nodes.Keys && m'.Keys == m.Keys
    requires forall v :: v in nodes && v != w ==> nodes'[v] == nodes[v]
    requires HolderOk(w, nodes'[w].local, sh', m') && sh'.rows.Keys == sh.rows.Keys
    requires forall r :: r in sh.locks && sh.locks[r] != w ==>
      r in sh'.locks && sh'.locks[r] == sh.locks[r] && (r in m ==> m'[r] == m[r])
    requires forall r :: r in sh.rows && r !in nodes[w].local.held ==> sh'.rows[r] == sh.rows[r]
    requires forall r :: r in m && r !in nodes'[w].local.held ==> m'[r] == m[r]
    requires forall r :: r in sh.rows && r in nodes[w].local.held && r !in nodes'[w].local.held ==> sh'.rows[r] == m[r]
    ensures SafeWith(nodes', sh', m')
  {
    forall v | v in nodes && v != w
      ensures HolderOk(v, nodes'[v].local, sh', m')
    {
      assert HolderOk(v, nodes[v].local, sh, m);
      assert HolderOk(w, nodes[w].local, sh, m);
      forall r | r in nodes[v].local.held
        ensures r in sh'.locks && sh'.locks[r] == v && m'[r] == m[r] && r !in nodes[w].local.held {}
    }
    forall r | r in sh'.rows && Unheld(nodes', r)
      ensures sh'.rows[r] == m'[r]
    {
      assert !Holds(nodes', w, r);
      if !Holds(nodes, w, r) {
        forall v ensures !Holds(nodes, v, r) { assert !Holds(nodes', v, r); }
        assert Unheld(nodes, r);
      }
    }
  }

  /** Any effect that keeps the dispatcher a proper holder and spares the others is safe. */
  lemma HandledKeepsSafe(s: Cluster, w: WorkerId, d: Record, f: Effect, acks: bool)
    requires Safe(s) && w in s.nodes && (d.merged ==> d.req.Apply? && d.req.update.Some?)
    requires HolderOk(w, f.local, f.shared, Merged(Handled(s, w, d, f, acks)))
    requires f.shared.rows.Keys == s.shared.rows.Keys && (d.merged ==> d.req.room in f.local.held)
    requires forall r :: r in s.shared.locks && s.shared.locks[r] != w ==>
      r in f.shared.locks && f.shared.locks[r] == s.shared.locks[r] && !(d.merged && d.req.room == r)
    requires forall r :: r in s.shared.rows && r !in s.nodes[w].local.held ==> f.shared.rows[r] == s.shared.rows[r]
    requires forall r :: r in s.shared.rows && r in s.nodes[w].local.held && r !in f.local.held ==>
      f.shared.rows[r] == Merged(s)[r]
    ensures Safe(Handled(s, w, d, f, acks))
  {
    var s' := Handled(s, w, d, f, acks);
    assert SafeWith(s'.nodes, s'.shared, Merged(s')) by {
      HandledMerges(s, w, d, f, acks);
      EffectKeepsSafe(s.nodes, s'.nodes, s.shared, f, Merged(s), Merged(s'), w, d);
    }
    assert d.merged ==> d.req.room in Merged(s').Keys;
  }

  lemma EffectKeepsSafe(nodes: Nodes, nodes': Nodes, sh: Shared, f: Effect, m: map<Room, Doc>, m': map<Room, Doc>,
                        w: WorkerId, d: Record)
    requires SafeWith(nodes, sh, m) && w in nodes && (d.merged ==> d.req.Apply? && d.req.update.Some?)
    requires w in nodes' && nodes' == nodes[w := nodes'[w]] && nodes'[w].local == f.local
    requires HolderOk(w, f.local, f.shared, m') && f.shared.rows.Keys == sh.rows.Keys
    requires d.merged ==> d.req.room in f.local.held
    requires m'.Keys == m.Keys
    requires forall r :: r in m ==> m'[r] == m[r] + if d.merged && d.req.room == r then {d.req.update.value} else {}
    requires forall r :: r in sh.locks && sh.locks[r] != w ==>
      r in f.shared.locks && f.shared.locks[r] == sh.locks[r] && !(d.merged && d.req.room == r)
    requires forall r :: r in sh.rows && r !in nodes[w].local.held ==> f.shared.rows[r] == sh.rows[r]
    requires forall r :: r in sh.rows && r in nodes[w].local.held && r !in f.local.held ==> f.shared.rows[r] == m[r]
    ensures SafeWith(nodes', f.shared, m')
  {
    forall r | r in m && !(d.merged && d.req.room == r) ensures m'[r] == m[r] {}
    OneWorkerKeepsSafe(nodes, nodes', sh, f.shared, m, m', w);
  }

  lemma HandleKeepsSafe(s: Cluster, w: WorkerId, id: nat, readLoop: bool, world: World, acks: bool)
    requires Safe(s) && w in s.nodes && id < |s.stream| && world.rowReadable && world.snapshotStored
    ensures Safe(HandleEntry(s, w, id, readLoop, world, acks))
  {
    var m, l, req := Merged(s), s.nodes[w].local, Decode(s.stream[id]);
    var f := Dispatch(w, req, world, l, s.shared);
    var d := Record(id, req, f.outcome, Merges(req, world, f.outcome), readLoop);
    HandledMerges(s, w, d, f, acks);
    FreeRows(s);
    DispatchKeepsHolder(w, req, world, l, s.shared, m, Merged(Handled(s, w, d, f, acks)));
    DispatchRows(w, req, world, l, s.shared, m);
    forall r | r in s.shared.locks && s.shared.locks[r] != w {
      DispatchSparesOthers(w, req, world, l, s.shared, m, r);
    }
    HandledKeepsSafe(s, w, d, f, acks);
  }

  lemma FreeRows(s: Cluster)
    requires Safe(s)
    ensures FreeRowsCurrent(s.shared, Merged(s))
  {
    forall r | r in s.shared.rows && r !in s.shared.locks
      ensures s.shared.rows[r] == Merged(s)[r]
    {
      forall v ensures !Holds(s.nodes, v, r) {
        if v in s.nodes { assert HolderOk(v, s.nodes[v].local, s.shared, Merged(s)); }
      }
      assert Unheld(s.nodes, r);
    }
  }

  /** A dispatch that opens nothing blind and releases nothing unsaved does not depend on these answers. */
  lemma CalmAnswersChangeNothing(s: Cluster, w: WorkerId, id: nat, readLoop: bool, world: World, acks: bool)
    requires Safe(s) && w in s.nodes && id < |s.stream| && LosslessHandle(s, w, Decode(s.stream[id]), world)
    requires !OpensBlind(Decode(s.stream[id]), world, s.nodes[w].local, s.shared)
    ensures var calm := world.(rowReadable := true, snapshotStored := true);
            HandleEntry(s, w, id, readLoop, world, acks) == HandleEntry(s, w, id, readLoop, calm, acks)
  {
    var req := Decode(s.stream[id]);
    CalmDispatch(w, req, world, s.nodes[w].local, s.shared, Merged(s));
  }

  lemma CalmDispatch(w: WorkerId, req: Request, world: World, l: Local, sh: Shared, m: map<Room, Doc>)
    requires HolderOk(w, l, sh, m) && !OpensBlind(req, world, l, sh)
    requires req.Release? && req.room in l.held && !world.snapshotStored ==>
               (req.room in sh.rows ==> sh.rows[req.room] == m[req.room])
    ensures var calm := world.(rowReadable := true, snapshotStored := true);
            Dispatch(w, req, world, l, sh) == Dispatch(w, req, calm, l, sh)
  {
    match req
    case Malformed =>
    case Unknown(_) =>
    case Apply(r, u) => SeeingAdmission(w, r, GoodUpdate(u), world, l, sh);
    case State(r, a) => SeeingAdmission(w, r, GoodReplyTo(a), world, l, sh);
    case Release(r) =>
      if r in l.held && r in sh.rows && !world.snapshotStored { assert sh.rows[r := l.rooms[r].doc] == sh.rows; }
  }

  lemma SeeingAdmission(w: WorkerId, r: Room, good: bool, world: World, l: Local, sh: Shared)
    requires !(good && r !in l.held && r !in l.rooms && r !in sh.locks && world.lock.Answered? && !world.rowReadable)
    ensures var calm := world.(rowReadable := true, snapshotStored := true);
            Admit(w, r, good, world, l, sh) == Admit(w, r, good, calm, l, sh)
  {
  }

  lemma BlindOpening(w: WorkerId, req: Request, world: World, l: Local, sh: Shared)
    requires OpensBlind(req, world, l, sh)
    ensures var f := Dispatch(w, req, world, l, sh);
            && f.local.held == l.held + {req.room}
            && f.shared.rows == sh.rows && f.shared.locks == sh.locks[req.room := w]
            && f.local.rooms == l.rooms[req.room := RoomState(Opened(req, world), 1, Merges(req, world, f.outcome))]
            && Opened(req, world) == if Merges(req, world, f.outcome) then {req.update.value} else {}
  {
    var r, f := req.room, Dispatch(w, req, world, l, sh);
    var blind := Local(l.held + {r}, l.rooms[r := RoomState({}, 1, false)]);
    assert Admit(w, r, true, world, l, sh) == (Admitted(blind), sh.(locks := sh.locks[r := w]));
    if req.Apply? {
      assert {} + {req.update.value} == {req.update.value};
      assert f.local == ApplyUpdate(blind, r, req.update.value, world.decodable);
    } else {
      assert f.local == blind;
    }
  }

  /** Opening a room blind is safe exactly when everything merged so far is in what it then holds. */
  lemma BlindOpeningSafeIff(s: Cluster, w: WorkerId, id: nat, readLoop: bool, world: World, acks: bool)
    requires Safe(s) && w in s.nodes && id < |s.stream|
    requires OpensBlind(Decode(s.stream[id]), world, s.nodes[w].local, s.shared)
    ensures var req := Decode(s.stream[id]);
            Safe(HandleEntry(s, w, id, readLoop, world, acks))
            <==> req.room in s.base && Merged(s)[req.room] <= Opened(req, world)
  {
    var req, l := Decode(s.stream[id]), s.nodes[w].local;
    var f := Dispatch(w, req, world, l, s.shared);
    BlindOpening(w, req, world, l, s.shared);
    var d := Record(id, req, f.outcome, Merges(req, world, f.outcome), readLoop);
    BlindEffectSafeIff(s, w, d, f, Opened(req, world), acks);
  }

  /** The effect `f` of a dispatch `d` that opened its room blind and left `doc` in it. */
  ghost predicate BlindEffect(w: WorkerId, d: Record, f: Effect, doc: Doc, l: Local, sh: Shared) {
    && (d.req.Apply? || d.req.State?) && (d.merged ==> d.req.Apply? && d.req.update.Some?)
    && d.req.room !in l.held && d.req.room !in sh.locks
    && doc == (if d.merged then {d.req.update.value} else {})
    && f.local == Local(l.held + {d.req.room}, l.rooms[d.req.room := RoomState(doc, 1, d.merged)])
    && f.shared.rows == sh.rows && f.shared.locks == sh.locks[d.req.room := w]
  }

  lemma BlindEffectSafeIff(s: Cluster, w: WorkerId, d: Record, f: Effect, doc: Doc, acks: bool)
    requires Safe(s) && w in s.nodes && BlindEffect(w, d, f, doc, s.nodes[w].local, s.shared)
    ensures Safe(Handled(s, w, d, f, acks)) <==> d.req.room in s.base && Merged(s)[d.req.room] <= doc
  {
    var s' := Handled(s, w, d, f, acks);
    BlindEffectHolderIff(s, w, d, f, doc, acks);
    if d.req.room in s.base && Merged(s)[d.req.room] <= doc {
      HandledKeepsSafe(s, w, d, f, acks);
    } else {
      BadHolderIsUnsafe(s', w);
    }
  }

  lemma BlindEffectHolderIff(s: Cluster, w: WorkerId, d: Record, f: Effect, doc: Doc, acks: bool)
    requires Safe(s) && w in s.nodes && BlindEffect(w, d, f, doc, s.nodes[w].local, s.shared)
    ensures HolderOk(w, f.local, f.shared, Merged(Handled(s, w, d, f, acks)))
            <==> d.req.room in s.base && Merged(s)[d.req.room] <= doc
  {
    HandledMerges(s, w, d, f, acks);
    FreeRows(s);
    var m, m' := Merged(s), Merged(Handled(s, w, d, f, acks));
    BlindHolderIff(w, d.req.room, doc, d.merged, s.nodes[w].local, s.shared, m, f, m');
  }

  lemma BadHolderIsUnsafe(s: Cluster, w: WorkerId)
    requires w in s.nodes && !HolderOk(w, s.nodes[w].local, s.shared, Merged(s))
    ensures !Safe(s)
  {
  }

  lemma BlindHolderIff(w: WorkerId, r: Room, doc: Doc, dirty: bool, l: Local, sh: Shared, m: map<Room, Doc>,
                       f: Effect, m': map<Room, Doc>)
    requires HolderOk(w, l, sh, m) && FreeRowsCurrent(sh, m) && r !in l.held && r !in sh.locks
    requires f.local == Local(l.held + {r}, l.rooms[r := RoomState(doc, 1, dirty)]) && (!dirty ==> doc == {})
    requires f.shared.rows == sh.rows && f.shared.locks == sh.locks[r := w]
    requires m'.Keys == m.Keys && forall q :: q in m ==> m'[q] == if q == r then m[q] + doc else m[q]
    ensures HolderOk(w, f.local, f.shared, m') <==> r in m && m[r] <= doc
  {
    assert f.local.held == f.local.rooms.Keys && f.local.rooms[r] == RoomState(doc, 1, dirty);
    if r in m && m[r] <= doc {
      assert m[r] + doc == doc;
      forall q | q in l.held ensures f.local.rooms[q] == l.rooms[q] && m'[q] == m[q] {}
    } else if r in m {
      assert m'[r] != doc;
    }
  }

  /** Releasing a room without storing it is safe exactly when its row was up to date. */
  lemma UnsavedReleaseSafeIff(s: Cluster, w: WorkerId, id: nat, readLoop: bool, world: World, acks: bool)
    requires Safe(s) && w in s.nodes && id < |s.stream| && !world.snapshotStored
    requires Decode(s.stream[id]).Release? && Decode(s.stream[id]).room in s.nodes[w].local.held
    ensures Safe(HandleEntry(s, w, id, readLoop, world, acks)) <==> UpToDate(s, Decode(s.stream[id]).room)
  {
    var req, l := Decode(s.stream[id]), s.nodes[w].local;
    var s' := HandleEntry(s, w, id, readLoop, world, acks);
    if UpToDate(s, req.room) {
      CalmAnswersChangeNothing(s, w, id, readLoop, world, acks);
      HandleKeepsSafe(s, w, id, readLoop, world.(rowReadable := true, snapshotStored := true), acks);
    } else {
      var f := Dispatch(w, req, world, l, s.shared);
      var d := Record(id, req, f.outcome, false, readLoop);
      assert s' == Handled(s, w, d, f, acks);
      UnsavedRelease(w, req.room, world, l, s.shared, Merged(s));
      HandledMerges(s, w, d, f, acks);
      ReleasedIsUnheld(s, s'.nodes, w, req.room);
      assert !SafeWith(s'.nodes, s'.shared, Merged(s'));
    }
  }

  lemma UnsavedRelease(w: WorkerId, r: Room, world: World, l: Local, sh: Shared, m: map<Room, Doc>)
    requires HolderOk(w, l, sh, m) && r in l.held && !world.snapshotStored
    ensures var f := DispatchRelease(w, r, world, l, sh); f.shared.rows == sh.rows && f.local.held == l.held - {r}
  {
  }

  /** A room that its holder gives up has no holder. */
  lemma ReleasedIsUnheld(s: Cluster, nodes: Nodes, w: WorkerId, r: Room)
    requires Safe(s) && Holds(s.nodes, w, r) && w in nodes && nodes == s.nodes[w := nodes[w]]
    requires r !in nodes[w].local.held
    ensures Unheld(nodes, r)
  {
    forall v ensures !Holds(nodes, v, r) {
      if v != w && Holds(s.nodes, v, r) { AtMostOneHolder(s, v, w, r); }
    }
  }

  /** One handled entry of any kind, with any answers, keeps the cluster safe exactly when it is lossless. */
  lemma HandleSafeIff(s: Cluster, w: WorkerId, id: nat, readLoop: bool, world: World, acks: bool)
    requires Safe(s) && w in s.nodes && id < |s.stream|
    ensures Safe(HandleEntry(s, w, id, readLoop, world, acks)) <==> LosslessHandle(s, w, Decode(s.stream[id]), world)
  {
    var req, l := Decode(s.stream[id]), s.nodes[w].local;
    if OpensBlind(req, world, l, s.shared) {
      BlindOpeningSafeIff(s, w, id, readLoop, world, acks);
    } else if req.Release? && req.room in l.held && !world.snapshotStored {
      UnsavedReleaseSafeIff(s, w, id, readLoop, world, acks);
    } else {
      CalmAnswersChangeNothing(s, w, id, readLoop, world, acks);
      HandleKeepsSafe(s, w, id, readLoop, world.(rowReadable := true, snapshotStored := true), acks);
    }
  }

  lemma SnapshotKeepsHolder(w: WorkerId, l: Local, sh: Shared, m: map<Room, Doc>, r: Room, written: bool)
    requires HolderOk(w, l, sh, m) && r in l.rooms && l.rooms[r].dirty && written
    ensures HolderOk(w, l.(rooms := l.rooms[r := l.rooms[r].(dirty := false)]),
                     sh.(rows := Persist(sh.rows, r, l.rooms[r], written)), m)
  {
    var l' := l.(rooms := l.rooms[r := l.rooms[r].(dirty := false)]);
    assert l'.held == l.held && forall q :: q in l.rooms && q != r ==> l'.rooms[q] == l.rooms[q];
  }

  lemma SnapshotKeepsSafe(s: Cluster, w: WorkerId, r: Room, save: Save)
    requires Safe(s) && Enabled(s, Snapshot(w, r, save)) && save != Skipped
    ensures Safe(Next(s, Snapshot(w, r, save)))
  {
    var s' := Next(s, Snapshot(w, r, save));
    var l, m := s.nodes[w].local, Merged(s);
    assert Merged(s') == m;
    if l.rooms[r].dirty && save == Written {
      SnapshotKeepsSafeWith(s.nodes, s.shared, m, w, r);
    }
  }

  lemma SnapshotKeepsSafeWith(nodes: Nodes, sh: Shared, m: map<Room, Doc>, w: WorkerId, r: Room)
    requires SafeWith(nodes, sh, m) && w in nodes && r in nodes[w].local.rooms && nodes[w].local.rooms[r].dirty
    ensures var l := nodes[w].local;
            SafeWith(nodes[w := nodes[w].(local := l.(rooms := l.rooms[r := l.rooms[r].(dirty := false)]))],
                     sh.(rows := Persist(sh.rows, r, l.rooms[r], true)), m)
  {
    var l := nodes[w].local;
    SnapshotKeepsHolder(w, l, sh, m, r, true);
    var nodes' := nodes[w := nodes[w].(local := l.(rooms := l.rooms[r := l.rooms[r].(dirty := false)]))];
    OneWorkerKeepsSafe(nodes, nodes', sh, sh.(rows := Persist(sh.rows, r, l.rooms[r], true)), m, m, w);
  }

  /** A debounced snapshot is safe unless it is skipped, and so forgets its changes, over an older row. */
  lemma SnapshotSafeIff(s: Cluster, w: WorkerId, r: Room, save: Save)
    requires Safe(s) && Enabled(s, Snapshot(w, r, save))
    ensures Safe(Next(s, Snapshot(w, r, save)))
            <==> (save == Skipped && s.nodes[w].local.rooms[r].dirty ==> UpToDate(s, r))
  {
    var s', l := Next(s, Snapshot(w, r, save)), s.nodes[w].local;
    if save != Skipped {
      SnapshotKeepsSafe(s, w, r, save);
    } else if l.rooms[r].dirty {
      var l' := l.(rooms := l.rooms[r := l.rooms[r].(dirty := false)]);
      assert Merged(s') == Merged(s) && s'.shared == s.shared && s'.nodes[w].local == l';
      assert HolderOk(w, l, s.shared, Merged(s));
      assert HolderOk(w, l', s.shared, Merged(s)) <==> UpToDate(s, r) by {
        CleanHolderIff(w, l, s.shared, Merged(s), r);
      }
      if UpToDate(s, r) { OneWorkerKeepsSafe(s.nodes, s'.nodes, s.shared, s.shared, Merged(s), Merged(s), w); }
    }
  }

  lemma CleanHolderIff(w: WorkerId, l: Local, sh: Shared, m: map<Room, Doc>, r: Room)
    requires HolderOk(w, l, sh, m) && r in l.rooms
    ensures HolderOk(w, l.(rooms := l.rooms[r := l.rooms[r].(dirty := false)]), sh, m)
            <==> (r in sh.rows ==> r in m && sh.rows[r] == m[r])
  {
    var l' := l.(rooms := l.rooms[r := l.rooms[r].(dirty := false)]);
    assert l'.rooms.Keys == l.rooms.Keys;
    assert forall q :: q in l.rooms && q != r ==> l'.rooms[q] == l.rooms[q];
  }

  lemma AtMostOneHolder(s: Cluster, v: WorkerId, w: WorkerId, r: Room)
    requires Safe(s) && Holds(s.nodes, v, r) && Holds(s.nodes, w, r)
    ensures v == w
  {
    assert HolderOk(v, s.nodes[v].local, s.shared, Merged(s)) && HolderOk(w, s.nodes[w].local, s.shared, Merged(s));
  }

  /** When `w` leaves, the rooms without a holder are those that had none or had `w`. */
  lemma LeavingUnheld(s: Cluster, w: WorkerId, r: Room)
    requires Safe(s) && w in s.nodes
    ensures Unheld(s.nodes - {w}, r) <==> Unheld(s.nodes, r) || Holds(s.nodes, w, r)
  {
    var rest := s.nodes - {w};
    if Unheld(s.nodes, r) {
      forall v ensures !Holds(rest, v, r) { assert !Holds(s.nodes, v, r); }
    }
    if Holds(s.nodes, w, r) {
      forall v ensures !Holds(rest, v, r) { if Holds(rest, v, r) { AtMostOneHolder(s, v, w, r); } }
    }
    if Unheld(rest, r) && !Holds(s.nodes, w, r) {
      forall v ensures !Holds(s.nodes, v, r) { assert !Holds(rest, v, r); }
    }
  }

  /** A shutdown loses nothing exactly when every room it closes ends up stored: by this flush, or
      because the row already agrees. */
  lemma ShutdownSafeIff(s: Cluster, w: WorkerId, stored: set<Room>, unlocked: set<Room>)
    requires Safe(s) && w in s.nodes
    ensures Safe(Next(s, Shutdown(w, stored, unlocked))) <==>
              forall r :: r in s.nodes[w].local.held && r in s.shared.rows ==>
                r in stored || s.shared.rows[r] == Merged(s)[r]
  {
    var s' := Next(s, Shutdown(w, stored, unlocked));
    var l, m := s.nodes[w].local, Merged(s);
    assert Merged(s') == m && HolderOk(w, l, s.shared, m);
    forall v | v in s'.nodes
      ensures HolderOk(v, s'.nodes[v].local, s'.shared, m)
    {
      assert HolderOk(v, s.nodes[v].local, s.shared, m);
      forall r | r in s.nodes[v].local.held ensures r !in l.held {}
    }
    forall r | r in s.shared.rows
      ensures Unheld(s'.nodes, r) && s'.shared.rows[r] != m[r] <==>
              r in l.held && r !in stored && s.shared.rows[r] != m[r]
    {
      LeavingUnheld(s, w, r);
    }
  }

  /** A crash loses nothing exactly when the stored row of every room the worker held is up to date. */
  lemma CrashSafeIff(s: Cluster, w: WorkerId)
    requires Safe(s) && w in s.nodes
    ensures Safe(Next(s, Crash(w))) <==>
              forall r :: r in s.nodes[w].local.held && r in s.shared.rows ==> s.shared.rows[r] == Merged(s)[r]
  {
    var s' := Next(s, Crash(w));
    assert Merged(s') == Merged(s);
    forall r | r in s.shared.rows
      ensures Unheld(s'.nodes, r) && s.shared.rows[r] != Merged(s)[r] <==>
              r in s.nodes[w].local.held && s.shared.rows[r] != Merged(s)[r]
    {
      LeavingUnheld(s, w, r);
    }
  }

  /** Losing a lock to expiry is harmless exactly when nobody holds the room. */
  lemma ExpireSafeIff(s: Cluster, r: Room)
    requires Safe(s)
    ensures Safe(Next(s, Expire(r))) <==> Unheld(s.nodes, r)
  {
    var s' := Next(s, Expire(r));
    assert Merged(s') == Merged(s);
    if Unheld(s.nodes, r) {
      forall v | v in s.nodes ensures r !in s.nodes[v].local.held { assert !Holds(s.nodes, v, r); }
    } else {
      var v :| Holds(s.nodes, v, r);
      assert !HolderOk(v, s'.nodes[v].local, s'.shared, Merged(s'));
    }
  }

  /** With an expired lock a second worker really gets in beside the first. */
  lemma ExpiryAdmitsSecondHolder(s: Cluster, v: WorkerId, w: WorkerId, id: nat, world: World)
    requires v in s.nodes && w in s.nodes && v != w && id < |s.stream|
    requires var req := Decode(s.stream[id]);
             && req.Apply? && GoodUpdate(req.update) && Holds(s.nodes, v, req.room) && !Holds(s.nodes, w, req.room)
             && req.room in s.shared.rows
    requires world.lock.Answered? && world.rowReadable
    ensures var r := Decode(s.stream[id]).room;
            var s' := HandleEntry(Next(s, Expire(r)), w, id, true, world, true);
            Holds(s'.nodes, v, r) && Holds(s'.nodes, w, r)
  {
  }

  /** A room dropped by a renewal pass keeps its snapshot timer. When that fires, the stale document goes
      over the row of the new holder, which stays as it was exactly when the two agree. */
  lemma StaleSnapshotOverwrites(s: Cluster, v: WorkerId, w: WorkerId, r: Room)
    requires v in s.nodes && v != w && Holds(s.nodes, v, r) && Holds(s.nodes, w, r)
    requires r in s.shared.locks && s.shared.locks[r] == w
    requires r in s.nodes[v].local.rooms && s.nodes[v].local.rooms[r].dirty && r in s.shared.rows
    ensures var s1 := Next(s, Renew(v, {}));
            && !Holds(s1.nodes, v, r) && Holds(s1.nodes, w, r) && Enabled(s1, Snapshot(v, r, Written))
            && var s2 := Next(s1, Snapshot(v, r, Written));
               && s2.shared.rows[r] == s.nodes[v].local.rooms[r].doc
               && (s2.shared.rows == s.shared.rows <==> s.shared.rows[r] == s.nodes[v].local.rooms[r].doc)
  {
    var s1 := Next(s, Renew(v, {}));
    assert s1.nodes[v].local.rooms == s.nodes[v].local.rooms && s1.shared == s.shared;
    var doc := s.nodes[v].local.rooms[r].doc;
    if s.shared.rows[r] == doc { assert s.shared.rows[r := doc] == s.shared.rows; }
  }

  /** Events that leave held rooms, locks, the history and the surviving rows alone. */
  lemma QuietKeepsSafe(s: Cluster, s': Cluster)
    requires Safe(s) && s'.base == s.base && s'.shared.locks == s.shared.locks && s'.history == s.history
    requires s'.shared.rows.Keys <= s.shared.rows.Keys
    requires forall r :: r in s'.shared.rows ==> s'.shared.rows[r] == s.shared.rows[r]
    requires s.nodes.Keys <= s'.nodes.Keys
    requires forall v :: v in s'.nodes ==>
               s'.nodes[v].local == if v in s.nodes then s.nodes[v].local else Local({}, map[])
    ensures Safe(s')
  {
    assert Merged(s') == Merged(s);
    QuietKeepsSafeWith(s.nodes, s'.nodes, s.shared, s'.shared, Merged(s));
  }

  lemma QuietKeepsSafeWith(nodes: Nodes, nodes': Nodes, sh: Shared, sh': Shared, m: map<Room, Doc>)
    requires SafeWith(nodes, sh, m) && sh'.locks == sh.locks
    requires sh'.rows.Keys <= sh.rows.Keys && nodes.Keys <= nodes'.Keys
    requires forall r :: r in sh'.rows ==> sh'.rows[r] == sh.rows[r]
    requires forall v :: v in nodes' ==> nodes'[v].local == if v in nodes then nodes[v].local else Local({}, map[])
    ensures SafeWith(nodes', sh', m)
  {
    forall r | r in sh'.rows && Unheld(nodes', r)
      ensures sh'.rows[r] == m[r]
    {
      forall v ensures !Holds(nodes, v, r) { assert !Holds(nodes', v, r); }
      assert Unheld(nodes, r);
    }
  }

  lemma CreateKeepsSafe(s: Cluster, r: Room, d: Doc)
    requires Safe(s) && r !in s.base
    ensures Safe(Next(s, CreateFile(r, d)))
  {
    var s' := Next(s, CreateFile(r, d));
    assert forall q :: q in s.base ==> Merged(s')[q] == Merged(s)[q];
    assert AppliedTo(r, s.history) == {};
    assert Merged(s')[r] == d;
    forall v | v in s'.nodes
      ensures HolderOk(v, s'.nodes[v].local, s'.shared, Merged(s'))
    {
      assert HolderOk(v, s.nodes[v].local, s.shared, Merged(s));
    }
  }

  lemma RenewKeepsSafe(s: Cluster, w: WorkerId, unanswered: set<Room>)
    requires Safe(s) && w in s.nodes
    ensures Safe(Next(s, Renew(w, unanswered)))
  {
    assert HolderOk(w, s.nodes[w].local, s.shared, Merged(s));
    assert Renewed(w, s.nodes[w].local.held, unanswered, s.shared.locks) == s.nodes[w].local.held;
    QuietKeepsSafe(s, Next(s, Renew(w, unanswered)));
  }

  /** In a safe state the benign events are exactly those that keep it safe. */
  lemma StepSafeIff(s: Cluster, e: Event)
    requires Safe(s) && Enabled(s, e)
    ensures Safe(Next(s, e)) <==> Benign(s, e)
  {
    match e
    case Handle(w, id, readLoop, world, acks) => HandleSafeIff(s, w, id, readLoop, world, acks);
    case Snapshot(w, r, save) => SnapshotSafeIff(s, w, r, save);
    case Shutdown(w, stored, unlocked) => ShutdownSafeIff(s, w, stored, unlocked);
    case Crash(w) => CrashSafeIff(s, w);
    case Expire(r) => ExpireSafeIff(s, r);
    case CreateFile(r, d) => CreateKeepsSafe(s, r, d);
    case Renew(w, unanswered) => RenewKeepsSafe(s, w, unanswered);
    case _ => QuietStepKeepsSafe(s, e);
  }

  lemma CalmIsBenign(s: Cluster, e: Event)
    requires Safe(s) && Enabled(s, e) && Calm(s, e)
    ensures Benign(s, e)
  {
  }

  lemma QuietStepKeepsSafe(s: Cluster, e: Event)
    requires Safe(s) && Enabled(s, e) && (e.Publish? || e.DeleteFile? || e.Start? || e.Read? || e.Claim?)
    ensures Safe(Next(s, e))
  {
    QuietKeepsSafe(s, Next(s, e));
  }

  // ---------------------------------------------------------------- main results over runs

  /** A run is safe in all its states exactly when each of its events is benign. */
  lemma RunIsSafeIff(trace: seq<Cluster>, es: seq<Event>)
    requires IsRun(trace, es) && Initial(trace[0])
    ensures (forall k :: 0 <= k <= |es| ==> Safe(trace[k])) <==> (forall k :: 0 <= k < |es| ==> Benign(trace[k], es[k]))
  {
    if forall k :: 0 <= k < |es| ==> Benign(trace[k], es[k]) {
      forall k | 0 <= k <= |es| ensures Safe(trace[k]) { BenignRunIsLossless(trace, es, k); }
    }
    if forall k :: 0 <= k <= |es| ==> Safe(trace[k]) {
      forall k | 0 <= k < |es| ensures Benign(trace[k], es[k]) {
        assert Safe(trace[k]) && Safe(trace[k + 1]);
        StepSafeIff(trace[k], es[k]);
      }
    }
  }

  /** In every state of a benign run, at most one worker holds a room, the holder's document is
      exactly what has been applied so far, and so is the row of a room nobody holds. */
  lemma {:induction false} BenignRunIsLossless(trace: seq<Cluster>, es: seq<Event>, i: nat)
    requires IsRun(trace, es) && Initial(trace[0]) && i <= |es|
    requires forall k :: 0 <= k < i ==> Benign(trace[k], es[k])
    ensures Safe(trace[i])
    ensures forall v, w, r :: Holds(trace[i].nodes, v, r) && Holds(trace[i].nodes, w, r) ==> v == w
    ensures forall w, r :: Holds(trace[i].nodes, w, r) ==>
              r in trace[i].nodes[w].local.rooms && r in Merged(trace[i])
              && trace[i].nodes[w].local.rooms[r].doc == Merged(trace[i])[r]
    ensures forall r :: r in trace[i].shared.rows && Unheld(trace[i].nodes, r) ==>
              r in Merged(trace[i]) && trace[i].shared.rows[r] == Merged(trace[i])[r]
  {
    var s := trace[i];
    if i == 0 {
      forall r | r in s.base ensures Merged(s)[r] == s.base[r] { assert AppliedTo(r, []) == {}; }
    } else {
      BenignRunIsLossless(trace, es, i - 1);
      StepSafeIff(trace[i - 1], es[i - 1]);
    }
    forall v, w, r | Holds(s.nodes, v, r) && Holds(s.nodes, w, r) ensures v == w { AtMostOneHolder(s, v, w, r); }
    forall w, r | Holds(s.nodes, w, r)
      ensures r in s.nodes[w].local.rooms && r in Merged(s) && s.nodes[w].local.rooms[r].doc == Merged(s)[r]
    {
      assert HolderOk(w, s.nodes[w].local, s.shared, Merged(s));
    }
  }

  /** A state request answered in a safe state is answered with every update applied so far exactly when
      answering it is lossless: it is not when an unreadable row made the room open empty. */
  lemma StateReplyIsCompleteIff(s: Cluster, w: WorkerId, id: nat, readLoop: bool, world: World, acks: bool)
    requires Safe(s) && w in s.nodes && id < |s.stream| && Decode(s.stream[id]).State?
    requires Dispatch(w, Decode(s.stream[id]), world, s.nodes[w].local, s.shared).outcome == Done
    ensures var req := Decode(s.stream[id]);
            var s' := HandleEntry(s, w, id, readLoop, world, acks);
            && req.replyTo.Some? && req.replyTo.value in s'.shared.replies
            && (req.room in s.base
                && s'.shared.replies[req.replyTo.value] == s.base[req.room] + AppliedTo(req.room, s.history)
                <==> LosslessHandle(s, w, req, world))
  {
    var req, l := Decode(s.stream[id]), s.nodes[w].local;
    var f := Dispatch(w, req, world, l, s.shared);
    ReplyIsDocument(w, req.room, req.replyTo, world, l, s.shared);
    if OpensBlind(req, world, l, s.shared) {
      BlindOpening(w, req, world, l, s.shared);
    } else {
      CalmAnswersChangeNothing(s, w, id, readLoop, world, acks);
      var calm := world.(rowReadable := true, snapshotStored := true);
      FreeRows(s);
      StateKeepsHolder(w, req.room, req.replyTo, calm, l, s.shared, Merged(s));
      assert f.local == HandleEntry(s, w, id, readLoop, calm, acks).nodes[w].local;
    }
  }

  lemma ReplyIsDocument(w: WorkerId, r: Room, a: Option<string>, world: World, l: Local, sh: Shared)
    requires DispatchState(w, r, a, world, l, sh).outcome == Done
    ensures var f := DispatchState(w, r, a, world, l, sh);
            && a.Some? && r in f.local.held && r in f.local.rooms
            && a.value in f.shared.replies && f.shared.replies[a.value] == f.local.rooms[r].doc
  {
    AdmitFrame(w, r, GoodReplyTo(a), world, l, sh);
  }

  // ---------------------------------------------------------------- accounting, crashes included

  /** Every entry is undelivered, pending or acknowledged, and an acknowledgement has its reason. */
  ghost predicate Accounted(s: Cluster) {
    && s.next <= |s.stream|
    && (forall id: nat :: id in s.pending || id in s.acked <==> id < s.next)
    && (forall id: nat :: id in s.pending ==> id !in s.acked)
    && (forall id: nat :: id in s.acked ==> exists d :: d in s.history && d.id == id && Settles(d.outcome, d.readLoop))
  }

  lemma {:induction false} EveryRunIsAccounted(trace: seq<Cluster>, es: seq<Event>, i: nat)
    requires IsRun(trace, es) && Initial(trace[0]) && i <= |es|
    ensures Accounted(trace[i])
  {
    if i > 0 {
      EveryRunIsAccounted(trace, es, i - 1);
      StepKeepsAccounted(trace[i - 1], es[i - 1]);
    }
  }

  lemma StepKeepsAccounted(s: Cluster, e: Event)
    requires Accounted(s) && Enabled(s, e)
    ensures Accounted(Next(s, e))
  {
    var s' := Next(s, e);
    if e.Handle? {
      var req := Decode(s.stream[e.id]);
      var f := Dispatch(e.w, req, e.world, s.nodes[e.w].local, s.shared);
      var d := Record(e.id, req, f.outcome, Merges(req, e.world, f.outcome), e.readLoop);
      HandledKeepsAccounted(s, e.w, d, f, e.ackAnswers);
    } else {
      assert s'.history == s.history && s'.acked == s.acked;
    }
  }

  lemma HandledKeepsAccounted(s: Cluster, w: WorkerId, d: Record, f: Effect, acks: bool)
    requires Accounted(s) && w in s.nodes
    ensures Accounted(Handled(s, w, d, f, acks))
  {
    var s' := Handled(s, w, d, f, acks);
    assert d in s'.history;
    forall id | id in s'.acked
      ensures exists c :: c in s'.history && c.id == id && Settles(c.outcome, c.readLoop)
    {
      if id in s.acked {
        var c :| c in s.history && c.id == id && Settles(c.outcome, c.readLoop);
        assert c in s'.history;
      }
    }
  }

  // ---------------------------------------------------------------- read once

  /** A read loop has dispatched the entry. */
  ghost predicate ReadBefore(history: seq<Record>, id: nat) { exists d :: d in history && d.readLoop && d.id == id }

  ghost predicate Awaits(s: Cluster, w: WorkerId, id: nat) { w in s.nodes && id in s.nodes[w].inbox }

  /** An entry waits in one read loop at most, once, and only until that has dispatched it; no entry is
      dispatched by read loops twice. */
  ghost predicate ReadOnce(s: Cluster) {
    && (forall w, id: nat :: Awaits(s, w, id) ==>
          id < s.next && s.nodes[w].inbox[id] == 1 && !ReadBefore(s.history, id))
    && (forall v, w, id: nat :: Awaits(s, v, id) && Awaits(s, w, id) ==> v == w)
    && (forall id: nat :: ReadBefore(s.history, id) ==> id < s.next)
    && (forall i, j :: 0 <= i < j < |s.history| && s.history[i].readLoop && s.history[j].readLoop ==>
          s.history[i].id != s.history[j].id)
  }

  /** Over every run, whatever is reclaimed besides. */
  lemma {:induction false} RunsReadOnce(trace: seq<Cluster>, es: seq<Event>, i: nat)
    requires IsRun(trace, es) && Initial(trace[0]) && i <= |es|
    ensures ReadOnce(trace[i])
  {
    if i > 0 {
      RunsReadOnce(trace, es, i - 1);
      StepReadsOnce(trace[i - 1], es[i - 1]);
    }
  }

  lemma StepReadsOnce(s: Cluster, e: Event)
    requires ReadOnce(s) && Enabled(s, e)
    ensures ReadOnce(Next(s, e))
  {
    var t := Next(s, e);
    if e.Handle? {
      HandleReadsOnce(s, e);
    } else if e.Read? {
      ReadHandsOutNew(s, e.w, e.count);
    } else {
      forall w, id: nat | Awaits(t, w, id) ensures Awaits(s, w, id) && t.nodes[w].inbox[id] == s.nodes[w].inbox[id] {}
      assert t.history == s.history && t.next == s.next;
    }
  }

  lemma ReadHandsOutNew(s: Cluster, w: WorkerId, n: nat)
    requires ReadOnce(s) && Enabled(s, Read(w, n))
    ensures ReadOnce(Next(s, Read(w, n)))
  {
    var t := Next(s, Read(w, n));
    forall v, id: nat | Awaits(t, v, id)
      ensures t.nodes[v].inbox[id] == 1 && id < t.next && (if v == w then id >= s.next else Awaits(s, v, id))
    {
      if v == w {
        assert t.nodes[v].inbox == multiset(Span(s.next, n)) && id in Span(s.next, n);
      } else {
        assert t.nodes[v] == s.nodes[v] && Awaits(s, v, id);
      }
    }
  }

  lemma HandleReadsOnce(s: Cluster, e: Event)
    requires ReadOnce(s) && Enabled(s, e) && e.Handle?
    ensures ReadOnce(Next(s, e))
  {
    var t := Next(s, e);
    var d := t.history[|s.history|];
    assert t.history == s.history + [d] && d.id == e.id && d.readLoop == e.readLoop;
    forall id: nat ensures ReadBefore(t.history, id) <==> ReadBefore(s.history, id) || (d.readLoop && id == d.id) {
      assert d in t.history;
    }
    assert e.readLoop ==> Awaits(s, e.w, e.id);
    forall w, id: nat | Awaits(t, w, id)
      ensures Awaits(s, w, id) && t.nodes[w].inbox[id] == 1 && !(e.readLoop && id == e.id)
    {
      var was := s.nodes[w].inbox;
      assert t.nodes[w].inbox == if w == e.w && e.readLoop then was - multiset{e.id} else was;
      assert id in was && Awaits(s, w, id);
    }
    forall i | 0 <= i < |s.history| && s.history[i].readLoop && d.readLoop ensures s.history[i].id != d.id {
      assert s.history[i] in s.history;
    }
  }

  /** A claim makes the claimed entries the claimant's and hands it each once more; the others stay as they were. */
  lemma ClaimIsExact(s: Cluster, w: WorkerId, ids: set<nat>, id: nat)
    requires Enabled(s, Claim(w, ids))
    ensures var t := Next(s, Claim(w, ids));
            && (id in t.pending <==> id in s.pending)
            && (id in t.pending ==> t.pending[id] == if id in ids then w else s.pending[id])
            && t.nodes[w].claimed[id] == s.nodes[w].claimed[id] + (if id in ids then 1 else 0)
            && t.nodes - {w} == s.nodes - {w} && t.nodes[w].local == s.nodes[w].local
  {
  }

  /** Whatever expired before, after a renewal pass every held room has its own lock behind it
      exactly when no unanswered renewal concerned a room whose lock was lost. */
  lemma RenewalRestoresOwnershipIff(s: Cluster, w: WorkerId, unanswered: set<Room>)
    requires w in s.nodes
    ensures var s' := Next(s, Renew(w, unanswered));
            (forall r :: Holds(s'.nodes, w, r) ==> r in s'.shared.locks && s'.shared.locks[r] == w) <==>
            (forall r :: r in s.nodes[w].local.held && r in unanswered ==>
               r in s.shared.locks && s.shared.locks[r] == w)
  {
    var s' := Next(s, Renew(w, unanswered));
    forall r | r in s.nodes[w].local.held && r in unanswered ensures Holds(s'.nodes, w, r) {}
  }
}
