/** One worker of the Y.Doc tier: decoding a stream entry, the owner-checked room locks, the
    reference-counted rooms, and `dispatchEntry` itself. The answers of Redis and Postgres to the
    calls of one dispatch are its `World`. */
module YjsDispatch {
  import opened Common

  /** A Y.js document is the set of updates merged into it. */
  type Update = string
  type Doc = set<Update>
  type WorkerId = string
  datatype Room = Room(project: string, file: string)

  const MAX_UPDATE_B64 := 4 * 1024 * 1024
  const REPLY_PREFIX := "flowtex:yjs:state-reply:"

  // ---------------------------------------------------------------- room keys

  /** `heldRooms` stores rooms under one string. */
  function KeyFor(r: Room): string { KeyOf(r.project, r.file) }

  /** Renewal and shutdown read a room back as the first two pieces of `key.split(':')`. */
  function RoomOfKey(key: string): Option<Room> {
    var parts := Split(key, ':');
    if |parts| < 2 then None else Some(Room(parts[0], parts[1]))
  }

  /** The key names its room exactly when neither id contains a colon (ids are UUIDs). */
  lemma KeyNamesItsRoom(r: Room)
    ensures RoomOfKey(KeyFor(r)) == Some(r) <==> ':' !in r.project && ':' !in r.file
  {
    if ':' !in r.project {
      assert KeyFor(r) == r.project + [':'] + r.file;
      SplitAtFirst(r.project, ':', r.file);
      if ':' !in r.file { SplitWithout(r.file, ':'); }
    }
  }

  // ---------------------------------------------------------------- decoding

  /** What the null-prototype object holds under `name` once every pair has been stored in order:
      the value next to the last occurrence, or nothing when that value is missing. */
  function Field(raw: seq<string>, name: string): Option<string> {
    if |raw| == 0 then None
    else
      var k := (|raw| - 1) / 2 * 2;
      if raw[k] == name then (if k + 1 < |raw| then Some(raw[k + 1]) else None)
      else Field(raw[..k], name)
  }

  method ParseFields(raw: seq<string>) returns (fields: map<string, string>)
    ensures forall name :: (if name in fields then Some(fields[name]) else None) == Field(raw, name)
  {
    fields := map[];
    var i := 0;
    while i < |raw|
      invariant 0 <= i <= |raw| + 1
      invariant i % 2 == 0
      invariant forall name ::
        (if name in fields then Some(fields[name]) else None) == Field(raw[..Min(i, |raw|)], name)
    {
      ghost var next := raw[..Min(i + 2, |raw|)];
      assert (|next| - 1) / 2 * 2 == i && next[..i] == raw[..i];
      if i + 1 < |raw| {
        fields := fields[raw[i] := raw[i + 1]];
      } else {
        fields := fields - {raw[i]};
      }
      i := i + 2;
    }
    assert raw[..Min(i, |raw|)] == raw;
  }

  datatype Request =
    | Malformed
    | Apply(room: Room, update: Option<string>)
    | State(room: Room, replyTo: Option<string>)
    | Release(room: Room)
    | Unknown(room: Room)

  predicate Given(v: Option<string>) { v.Some? && v.value != "" }

  function Decode(raw: seq<string>): Request {
    var t, p, f := Field(raw, "type"), Field(raw, "projectId"), Field(raw, "fileId");
    if !Given(t) || !Given(p) || !Given(f) then Malformed
    else
      var r := Room(p.value, f.value);
      if t.value == "apply" then Apply(r, Field(raw, "update"))
      else if t.value == "state" then State(r, Field(raw, "replyTo"))
      else if t.value == "release" then Release(r)
      else Unknown(r)
  }

  // ---------------------------------------------------------------- what a raw entry says

  /** The last of the even places of `raw` that hold `name`. */
  ghost predicate LastPlace(raw: seq<string>, name: string, k: nat) {
    k < |raw| && k % 2 == 0 && raw[k] == name && forall j :: k < j < |raw| && j % 2 == 0 ==> raw[j] != name
  }

  /** The entry gives `name` the value `v`: it stands next to the last occurrence of the name. */
  ghost predicate Says(raw: seq<string>, name: string, v: string) {
    exists k: nat :: LastPlace(raw, name, k) && k + 1 < |raw| && raw[k + 1] == v
  }

  lemma {:induction false} FieldIff(raw: seq<string>, name: string, v: string)
    ensures Field(raw, name) == Some(v) <==> Says(raw, name, v)
  {
    if |raw| > 0 {
      var k := (|raw| - 1) / 2 * 2;
      var front := raw[..k];
      if raw[k] == name {
        assert LastPlace(raw, name, k);
        forall j: nat | LastPlace(raw, name, j) ensures j == k {}
      } else {
        FieldIff(front, name, v);
        forall j: nat ensures LastPlace(raw, name, j) <==> LastPlace(front, name, j) {}
      }
    }
  }

  /** The entry gives `name` no value, or an empty one. */
  ghost predicate Silent(raw: seq<string>, name: string) { forall v :: Says(raw, name, v) ==> v == "" }

  lemma SilentIff(raw: seq<string>, name: string)
    ensures Silent(raw, name) <==> !Given(Field(raw, name))
  {
    forall v ensures Says(raw, name, v) <==> Field(raw, name) == Some(v) { FieldIff(raw, name, v); }
    if Given(Field(raw, name)) { assert Says(raw, name, Field(raw, name).value); }
  }

  /** The entry is of the given type, for this project and file. */
  ghost predicate Concerns(raw: seq<string>, kind: string, p: string, f: string) {
    && p != "" && f != "" && kind != ""
    && Says(raw, "type", kind) && Says(raw, "projectId", p) && Says(raw, "fileId", f)
  }

  lemma ConcernsIff(raw: seq<string>, kind: string, p: string, f: string)
    ensures Concerns(raw, kind, p, f) <==>
              && p != "" && f != "" && kind != ""
              && Field(raw, "type") == Some(kind)
              && Field(raw, "projectId") == Some(p) && Field(raw, "fileId") == Some(f)
  {
    FieldIff(raw, "type", kind);
    FieldIff(raw, "projectId", p);
    FieldIff(raw, "fileId", f);
  }

  lemma MalformedIff(raw: seq<string>)
    ensures Decode(raw) == Malformed <==> Silent(raw, "type") || Silent(raw, "projectId") || Silent(raw, "fileId")
  {
    SilentIff(raw, "type");
    SilentIff(raw, "projectId");
    SilentIff(raw, "fileId");
  }

  lemma ApplyIff(raw: seq<string>, p: string, f: string, u: string)
    ensures Decode(raw) == Apply(Room(p, f), Some(u)) <==> Concerns(raw, "apply", p, f) && Says(raw, "update", u)
    ensures Decode(raw) == Apply(Room(p, f), None)
            <==> Concerns(raw, "apply", p, f) && forall v :: !Says(raw, "update", v)
  {
    ConcernsIff(raw, "apply", p, f);
    forall v ensures Says(raw, "update", v) <==> Field(raw, "update") == Some(v) { FieldIff(raw, "update", v); }
    if Field(raw, "update").Some? { assert Says(raw, "update", Field(raw, "update").value); }
  }

  lemma StateIff(raw: seq<string>, p: string, f: string, a: string)
    ensures Decode(raw) == State(Room(p, f), Some(a)) <==> Concerns(raw, "state", p, f) && Says(raw, "replyTo", a)
    ensures Decode(raw) == State(Room(p, f), None)
            <==> Concerns(raw, "state", p, f) && forall v :: !Says(raw, "replyTo", v)
  {
    ConcernsIff(raw, "state", p, f);
    forall v ensures Says(raw, "replyTo", v) <==> Field(raw, "replyTo") == Some(v) { FieldIff(raw, "replyTo", v); }
    if Field(raw, "replyTo").Some? { assert Says(raw, "replyTo", Field(raw, "replyTo").value); }
  }

  lemma ReleaseIff(raw: seq<string>, p: string, f: string)
    ensures Decode(raw) == Release(Room(p, f)) <==> Concerns(raw, "release", p, f)
  {
    ConcernsIff(raw, "release", p, f);
  }

  lemma UnknownIff(raw: seq<string>, p: string, f: string)
    ensures Decode(raw) == Unknown(Room(p, f))
            <==> exists kind :: kind !in {"apply", "state", "release"} && Concerns(raw, kind, p, f)
  {
    forall kind { ConcernsIff(raw, kind, p, f); }
    if Decode(raw) == Unknown(Room(p, f)) { assert Concerns(raw, Field(raw, "type").value, p, f); }
  }

  /** The three entries as the web tier publishes them. */
  lemma PublishedEntries(p: string, f: string, u: string, a: string)
    requires p != "" && f != ""
    ensures Decode(["type", "apply", "projectId", p, "fileId", f, "update", u]) == Apply(Room(p, f), Some(u))
    ensures Decode(["type", "state", "projectId", p, "fileId", f, "replyTo", a]) == State(Room(p, f), Some(a))
    ensures Decode(["type", "release", "projectId", p, "fileId", f]) == Release(Room(p, f))
  {
    PublishedSays("apply", p, f, ["update", u]);
    PublishedSays("state", p, f, ["replyTo", a]);
    PublishedSays("release", p, f, []);
    var apply, state := ["type", "apply", "projectId", p, "fileId", f] + ["update", u],
      ["type", "state", "projectId", p, "fileId", f] + ["replyTo", a];
    assert LastPlace(apply, "update", 6) && LastPlace(state, "replyTo", 6);
    ApplyIff(apply, p, f, u);
    StateIff(state, p, f, a);
    ReleaseIff(["type", "release", "projectId", p, "fileId", f] + [], p, f);
    assert apply == ["type", "apply", "projectId", p, "fileId", f, "update", u];
    assert state == ["type", "state", "projectId", p, "fileId", f, "replyTo", a];
    assert ["type", "release", "projectId", p, "fileId", f] + [] == ["type", "release", "projectId", p, "fileId", f];
  }

  lemma PublishedSays(kind: string, p: string, f: string, rest: seq<string>)
    requires p != "" && f != "" && kind != ""
    requires rest == [] || (|rest| == 2 && rest[0] in {"update", "replyTo"})
    ensures Concerns(["type", kind, "projectId", p, "fileId", f] + rest, kind, p, f)
  {
    var raw := ["type", kind, "projectId", p, "fileId", f] + rest;
    assert "type" != "projectId" && "type"[0] != "fileId"[0] && "projectId"[0] != "fileId"[0];
    assert "type"[0] != "update"[0] && "type"[0] != "replyTo"[0] && "projectId"[0] != "update"[0];
    assert "projectId"[0] != "replyTo"[0] && "fileId"[0] != "update"[0] && "fileId"[0] != "replyTo"[0];
    assert LastPlace(raw, "type", 0) && LastPlace(raw, "projectId", 2) && LastPlace(raw, "fileId", 4);
  }

  predicate GoodUpdate(u: Option<string>) { Given(u) && |u.value| <= MAX_UPDATE_B64 }

  predicate HexOrDash(c: char) { '0' <= c <= '9' || 'a' <= LowerChar(c) <= 'f' || c == '-' }

  /** The reply address must be the prefix and 36 hexadecimal digits or dashes, in any case. */
  predicate GoodReplyTo(a: Option<string>) {
    && a.Some? && |a.value| == |REPLY_PREFIX| + 36
    && Lower(a.value[..|REPLY_PREFIX|]) == REPLY_PREFIX
    && forall i :: |REPLY_PREFIX| <= i < |a.value| ==> HexOrDash(a.value[i])
  }

  /** An update is taken if it is neither empty nor longer than four mebibytes. */
  lemma GoodUpdateIff(u: string)
    ensures GoodUpdate(Some(u)) <==> 0 < |u| <= 4_194_304
    ensures !GoodUpdate(None)
  {
  }

  /** The addresses a state is sent to: the prefix in any case, then 36 hexadecimal digits or dashes. */
  ghost predicate IsReplyAddress(a: string) {
    var lower, upper, tail := "flowtex:yjs:state-reply:", "FLOWTEX:YJS:STATE-REPLY:", "0123456789abcdefABCDEF-";
    && |a| == 60
    && (forall i :: 0 <= i < 24 ==> a[i] == lower[i] || a[i] == upper[i])
    && (forall i :: 24 <= i < 60 ==> a[i] in tail)
  }

  lemma GoodReplyToIff(a: string)
    ensures GoodReplyTo(Some(a)) <==> IsReplyAddress(a)
    ensures !GoodReplyTo(None)
  {
    var lower, upper, tail := "flowtex:yjs:state-reply:", "FLOWTEX:YJS:STATE-REPLY:", "0123456789abcdefABCDEF-";
    assert |REPLY_PREFIX| == 24 && REPLY_PREFIX == lower && |upper| == 24;
    forall c: char ensures HexOrDash(c) <==> c in tail { HexOrDashIff(c); }
    if |a| == 60 {
      forall i | 0 <= i < 24 ensures LowerChar(a[i]) == lower[i] <==> a[i] == lower[i] || a[i] == upper[i] {
        assert LowerChar(upper[i]) == lower[i] == LowerChar(lower[i]);
        CaseOf(a[i], lower[i], upper[i]);
      }
      var head := a[..24];
      assert Lower(head) == lower <==> forall i :: 0 <= i < 24 ==> LowerChar(head[i]) == lower[i];
    }
  }

  lemma CaseOf(c: char, lower: char, upper: char)
    requires LowerChar(upper) == lower == LowerChar(lower)
    requires upper == lower || ('A' <= upper <= 'Z' && 'a' <= lower <= 'z')
    requires lower == upper ==> !('a' <= lower <= 'z')
    ensures LowerChar(c) == lower <==> c == lower || c == upper
  {
  }

  lemma HexOrDashIff(c: char)
    ensures HexOrDash(c) <==> c in "0123456789abcdefABCDEF-"
  {
  }

  // ---------------------------------------------------------------- state

  /** `refs` is the room service's reference count, `dirty` its unsaved-changes flag. */
  datatype RoomState = RoomState(doc: Doc, refs: nat, dirty: bool)

  /** One worker: `heldRooms`, and the room service's own table of open documents. */
  datatype Local = Local(held: set<Room>, rooms: map<Room, RoomState>)

  /** Redis locks and replies; `rows` gives, for every existing file, the document a fresh
      `acquireRoom` would load. */
  datatype Shared = Shared(locks: map<Room, WorkerId>, rows: map<Room, Doc>, replies: map<string, Doc>)

  /** How the SET NX went: answered, never reached Redis, or took effect with its reply lost. */
  datatype LockReply = Answered | Unreached | ReplyLost

  /** What the outside answers during one dispatch. */
  datatype World = World(
    lock: LockReply,       // how the SET NX went
    unlockAnswers: bool,   // the compare-and-delete reached Redis
    rowReadable: bool,     // the SELECT of the stored document succeeded
    decodable: bool,       // Y.applyUpdateV2 accepted the bytes
    encodes: bool,         // encoding the document did not throw
    replyStored: bool,     // the SET of the reply succeeded
    snapshotStored: bool)  // a final snapshot was neither refused nor failed

  datatype Outcome = Done | Rejected | Contended | ReplyFailed | Threw

  /** Outcomes flagged `retryable` leave the entry pending. */
  predicate Retryable(o: Outcome) { o == Contended || o == ReplyFailed }

  /** Outcomes after which the caller acknowledges: the reclaimer leaves an entry whose dispatch
      threw, the read loop does not. */
  predicate Settles(o: Outcome, readLoop: bool) { !Retryable(o) && (readLoop || o != Threw) }

  datatype Effect = Effect(local: Local, shared: Shared, outcome: Outcome)

  // ---------------------------------------------------------------- locks and rooms

  /** A call that throws is reported as not acquired, whether or not it took effect. */
  function Lock(sh: Shared, me: WorkerId, r: Room, reply: LockReply): (Shared, bool) {
    if reply.Unreached? || r in sh.locks then (sh, false) else (sh.(locks := sh.locks[r := me]), reply.Answered?)
  }

  function Unlock(sh: Shared, me: WorkerId, r: Room, answers: bool): Shared {
    if answers && r in sh.locks && sh.locks[r] == me then sh.(locks := sh.locks - {r}) else sh
  }

  /** Opening an already open room only counts a reference. An unreadable row gives an empty document. */
  function AcquireRoom(l: Local, sh: Shared, r: Room, readable: bool): Option<Local> {
    if r in l.rooms then Some(l.(rooms := l.rooms[r := l.rooms[r].(refs := l.rooms[r].refs + 1)]))
    else if !readable then Some(l.(rooms := l.rooms[r := RoomState({}, 1, false)]))
    else if r in sh.rows then Some(l.(rooms := l.rooms[r := RoomState(sh.rows[r], 1, false)]))
    else None
  }

  function ApplyUpdate(l: Local, r: Room, u: Update, decodable: bool): Local {
    if r in l.rooms && decodable
    then l.(rooms := l.rooms[r := l.rooms[r].(doc := l.rooms[r].doc + {u}, dirty := true)])
    else l
  }

  /** A dirty document is written over its row; a vanished row matches no UPDATE. */
  function Persist(rows: map<Room, Doc>, r: Room, rs: RoomState, stored: bool): map<Room, Doc> {
    if rs.dirty && stored && r in rows then rows[r := rs.doc] else rows
  }

  /** Only the last reference flushes and closes the room. */
  function ReleaseRoom(l: Local, sh: Shared, r: Room, stored: bool): (Local, Shared) {
    if r !in l.rooms then (l, sh)
    else if l.rooms[r].refs > 1 then
      (l.(rooms := l.rooms[r := l.rooms[r].(refs := l.rooms[r].refs - 1)]), sh)
    else
      (l.(rooms := l.rooms - {r}), sh.(rows := Persist(sh.rows, r, l.rooms[r], stored)))
  }

  /** The rooms a renewal pass of `me` keeps: a lock that is not ours any more drops its room, an
      unanswered renewal counts as a success. */
  function Renewed(me: WorkerId, held: set<Room>, unanswered: set<Room>, locks: map<Room, WorkerId>): set<Room> {
    set r | r in held && (r in unanswered || (r in locks && locks[r] == me))
  }

  // ---------------------------------------------------------------- dispatch

  datatype Admission = Admitted(local: Local) | Refused(outcome: Outcome)

  /** The common start of `apply` and `state`: win the room's lock unless the room is held, check the
      payload, open the room; a missing file gives the lock back, a bad payload does not. */
  function Admit(me: WorkerId, r: Room, good: bool, w: World, l: Local, sh: Shared): (Admission, Shared) {
    if r in l.held then (if good then Admitted(l) else Refused(Rejected), sh)
    else
      var (sh1, won) := Lock(sh, me, r, w.lock);
      if !won then (Refused(Contended), sh1)
      else if !good then (Refused(Rejected), sh1)
      else
        match AcquireRoom(l, sh1, r, w.rowReadable)
        case None => (Refused(Rejected), Unlock(sh1, me, r, w.unlockAnswers))
        case Some(l1) => (Admitted(l1.(held := l1.held + {r})), sh1)
  }

  function DispatchApply(me: WorkerId, r: Room, u: Option<string>, w: World, l: Local, sh: Shared): Effect {
    var (a, sh1) := Admit(me, r, GoodUpdate(u), w, l, sh);
    if a.Refused? then Effect(l, sh1, a.outcome)
    else Effect(ApplyUpdate(a.local, r, u.value, w.decodable), sh1, Done)
  }

  function DispatchState(me: WorkerId, r: Room, address: Option<string>, w: World, l: Local, sh: Shared): Effect {
    var (a, sh1) := Admit(me, r, GoodReplyTo(address), w, l, sh);
    if a.Refused? then Effect(l, sh1, a.outcome)
    else if r !in a.local.rooms then Effect(a.local, sh1, Rejected)
    else if !w.encodes then Effect(a.local, sh1, Threw)
    else if !w.replyStored then Effect(a.local, sh1, ReplyFailed)
    else Effect(a.local, sh1.(replies := sh1.replies[address.value := a.local.rooms[r].doc]), Done)
  }

  function DispatchRelease(me: WorkerId, r: Room, w: World, l: Local, sh: Shared): Effect {
    if r !in l.held then Effect(l, sh, Done)
    else
      var (l1, sh1) := ReleaseRoom(l.(held := l.held - {r}), sh, r, w.snapshotStored);
      Effect(l1, Unlock(sh1, me, r, w.unlockAnswers), Done)
  }

  function Dispatch(me: WorkerId, req: Request, w: World, l: Local, sh: Shared): Effect {
    match req
    case Malformed => Effect(l, sh, Rejected)
    case Unknown(_) => Effect(l, sh, Rejected)
    case Apply(r, u) => DispatchApply(me, r, u, w, l, sh)
    case State(r, a) => DispatchState(me, r, a, w, l, sh)
    case Release(r) => DispatchRelease(me, r, w, l, sh)
  }

  /** The update, if any, that this dispatch merged into its room's document. */
  predicate Merges(req: Request, w: World, o: Outcome) {
    req.Apply? && o == Done && w.decodable && req.update.Some?
  }

  // ---------------------------------------------------------------- what becomes of the entries of each kind

  /** A state entry that names a proper reply address. */
  ghost predicate AsksFor(raw: seq<string>, r: Room, a: string) {
    Concerns(raw, "state", r.project, r.file) && Says(raw, "replyTo", a) && IsReplyAddress(a)
  }

  /** An apply entry with an update of an accepted size. */
  ghost predicate Carries(raw: seq<string>, r: Room, u: Update) {
    Concerns(raw, "apply", r.project, r.file) && Says(raw, "update", u) && 0 < |u| <= 4_194_304
  }

  ghost predicate Holds(l: Local, r: Room) { r in l.held && r in l.rooms }

  /** A state entry for a held room stores that room's document under the address it gives. */
  lemma HeldRoomIsServed(me: WorkerId, raw: seq<string>, r: Room, a: string, w: World, l: Local, sh: Shared)
    requires AsksFor(raw, r, a) && Holds(l, r)
    ensures Dispatch(me, Decode(raw), w, l, sh)
         == if w.encodes && w.replyStored then Effect(l, sh.(replies := sh.replies[a := l.rooms[r].doc]), Done)
            else Effect(l, sh, if w.encodes then ReplyFailed else Threw)
  {
    StateIff(raw, r.project, r.file, a);
    GoodReplyToIff(a);
  }

  /** An apply entry for a held room adds its update, and nothing else, to that room's document. */
  lemma HeldRoomIsUpdated(me: WorkerId, raw: seq<string>, r: Room, u: Update, w: World, l: Local, sh: Shared)
    requires Carries(raw, r, u) && Holds(l, r)
    ensures Dispatch(me, Decode(raw), w, l, sh)
         == if w.decodable
            then Effect(Local(l.held, l.rooms[r := RoomState(l.rooms[r].doc + {u}, l.rooms[r].refs, true)]), sh, Done)
            else Effect(l, sh, Done)
  {
    ApplyIff(raw, r.project, r.file, u);
    GoodUpdateIff(u);
  }

  /** A release entry for a held room gives up the room and its lock; the last reference closes the
      document and writes it over its row if it has changed. */
  lemma HeldRoomIsReleased(me: WorkerId, raw: seq<string>, r: Room, w: World, l: Local, sh: Shared)
    requires Concerns(raw, "release", r.project, r.file) && Holds(l, r) && w.unlockAnswers && w.snapshotStored
    requires l.rooms[r].refs == 1 && r in sh.locks && sh.locks[r] == me
    ensures var e := Dispatch(me, Decode(raw), w, l, sh);
            && e.outcome == Done && e.local == Local(l.held - {r}, l.rooms - {r})
            && e.shared.locks == sh.locks - {r} && e.shared.replies == sh.replies
            && e.shared.rows == if l.rooms[r].dirty && r in sh.rows then sh.rows[r := l.rooms[r].doc] else sh.rows
  {
    ReleaseIff(raw, r.project, r.file);
  }

  /** A room nobody has locked and this worker has not open. */
  ghost predicate Unopened(r: Room, l: Local, sh: Shared) { r !in l.held && r !in l.rooms && r !in sh.locks }

  /** A good entry for such a room locks it and opens it with the document of its row: an update is
      added to that, a reply consists of it. */
  lemma UnopenedRoomIsUpdated(me: WorkerId, raw: seq<string>, r: Room, u: Update, w: World, l: Local, sh: Shared)
    requires Carries(raw, r, u) && Unopened(r, l, sh) && w.lock.Answered? && w.rowReadable && r in sh.rows
    ensures Dispatch(me, Decode(raw), w, l, sh)
         == Effect(Local(l.held + {r}, l.rooms[r := if w.decodable then RoomState(sh.rows[r] + {u}, 1, true)
                                                    else RoomState(sh.rows[r], 1, false)]),
                   sh.(locks := sh.locks[r := me]), Done)
  {
    ApplyIff(raw, r.project, r.file, u);
    GoodUpdateIff(u);
  }

  lemma UnopenedRoomIsServed(me: WorkerId, raw: seq<string>, r: Room, a: string, w: World, l: Local, sh: Shared)
    requires AsksFor(raw, r, a) && Unopened(r, l, sh) && w.lock.Answered? && w.rowReadable && r in sh.rows
    requires w.encodes && w.replyStored
    ensures Dispatch(me, Decode(raw), w, l, sh)
         == Effect(Local(l.held + {r}, l.rooms[r := RoomState(sh.rows[r], 1, false)]),
                   Shared(sh.locks[r := me], sh.rows, sh.replies[a := sh.rows[r]]), Done)
  {
    StateIff(raw, r.project, r.file, a);
    GoodReplyToIff(a);
  }

  /** For a file that is gone the lock is given back and the entry settled. */
  lemma MissingFileIsRejected(me: WorkerId, raw: seq<string>, r: Room, u: Update, w: World, l: Local, sh: Shared)
    requires Carries(raw, r, u) && Unopened(r, l, sh) && r !in sh.rows
    requires w.lock.Answered? && w.rowReadable && w.unlockAnswers
    ensures Dispatch(me, Decode(raw), w, l, sh) == Effect(l, sh, Rejected)
  {
    ApplyIff(raw, r.project, r.file, u);
    GoodUpdateIff(u);
    assert Dispatch(me, Decode(raw), w, l, sh).shared.locks == sh.locks;
  }

  /** Which outcomes are acknowledged: contention and a failed reply never, a throw by the read loop only. */
  lemma SettledOutcomes()
    ensures forall readLoop :: Settles(Done, readLoop) && Settles(Rejected, readLoop)
    ensures forall readLoop :: !Settles(Contended, readLoop) && !Settles(ReplyFailed, readLoop)
    ensures Settles(Threw, true) && !Settles(Threw, false)
  {
  }

  // ---------------------------------------------------------------- facts about one dispatch

  /** The worker owns exactly the locks of the rooms it holds. */
  ghost predicate OwnsExactly(me: WorkerId, held: set<Room>, locks: map<Room, WorkerId>) {
    forall r :: r in held <==> r in locks && locks[r] == me
  }

  /** An apply or state request is good when its payload is. */
  predicate GoodPayload(req: Request) {
    if req.Apply? then GoodUpdate(req.update) else req.State? && GoodReplyTo(req.replyTo)
  }

  /** Opening the room finds no row. */
  predicate FileMissing(r: Room, w: World, l: Local, sh: Shared) {
    r !in l.rooms && w.rowReadable && r !in sh.rows
  }

  /** Admission takes the free lock of a room and keeps it without holding the room: the reply was lost,
      the payload is bad, or the file is missing and the lock cannot be given back. */
  predicate ForgetsLock(r: Room, good: bool, w: World, l: Local, sh: Shared) {
    && r !in l.held && r !in sh.locks
    && (w.lock.ReplyLost? || (w.lock.Answered? && (!good || (FileMissing(r, w, l, sh) && !w.unlockAnswers))))
  }

  /** The dispatches that leave behind a lock without its room. */
  predicate LeaksLock(req: Request, w: World, l: Local, sh: Shared) {
    match req
    case Apply(r, u) => ForgetsLock(r, GoodUpdate(u), w, l, sh)
    case State(r, a) => ForgetsLock(r, GoodReplyTo(a), w, l, sh)
    case Release(r) => r in l.held && !w.unlockAnswers
    case _ => false
  }

  lemma AdmitLeaksLockIff(me: WorkerId, r: Room, good: bool, w: World, l: Local, sh: Shared)
    requires OwnsExactly(me, l.held, sh.locks)
    ensures var (a, sh1) := Admit(me, r, good, w, l, sh);
            OwnsExactly(me, if a.Admitted? then a.local.held else l.held, sh1.locks)
            <==> !ForgetsLock(r, good, w, l, sh)
  {
    var (a, sh1) := Admit(me, r, good, w, l, sh);
    if ForgetsLock(r, good, w, l, sh) {
      assert r in sh1.locks && sh1.locks[r] == me;
    } else if r !in l.held && r !in sh.locks {
      assert sh1.locks == if a.Admitted? then sh.locks[r := me] else sh.locks;
    }
  }

  /** Whatever the outside answers, a dispatch keeps "locks owned are rooms held" exactly when it leaks none. */
  lemma DispatchLeaksLockIff(me: WorkerId, req: Request, w: World, l: Local, sh: Shared)
    requires OwnsExactly(me, l.held, sh.locks)
    ensures var e := Dispatch(me, req, w, l, sh);
            OwnsExactly(me, e.local.held, e.shared.locks) <==> !LeaksLock(req, w, l, sh)
  {
    match req
    case Malformed =>
    case Unknown(_) =>
    case Apply(r, u) => ApplyLeaksLockIff(me, r, u, w, l, sh);
    case State(r, a) => AdmitLeaksLockIff(me, r, GoodReplyTo(a), w, l, sh);
    case Release(r) => ReleaseLeaksLockIff(me, r, w, l, sh);
  }

  lemma ApplyLeaksLockIff(me: WorkerId, r: Room, u: Option<string>, w: World, l: Local, sh: Shared)
    requires OwnsExactly(me, l.held, sh.locks)
    ensures var e := DispatchApply(me, r, u, w, l, sh);
            OwnsExactly(me, e.local.held, e.shared.locks) <==> !ForgetsLock(r, GoodUpdate(u), w, l, sh)
  {
    AdmitLeaksLockIff(me, r, GoodUpdate(u), w, l, sh);
  }

  lemma ReleaseLeaksLockIff(me: WorkerId, r: Room, w: World, l: Local, sh: Shared)
    requires OwnsExactly(me, l.held, sh.locks)
    ensures var e := DispatchRelease(me, r, w, l, sh);
            OwnsExactly(me, e.local.held, e.shared.locks) <==> !(r in l.held && !w.unlockAnswers)
  {
    if r in l.held {
      var e := DispatchRelease(me, r, w, l, sh);
      assert e.local.held == l.held - {r};
      assert e.shared.locks == if w.unlockAnswers then sh.locks - {r} else sh.locks;
    }
  }

  /** A leaked lock blocks its own owner too: nobody's apply or state request gets past it. */
  lemma LeakedLockBlocksEveryone(me: WorkerId, req: Request, w: World, l: Local, sh: Shared)
    requires (req.Apply? || req.State?) && req.room in sh.locks && req.room !in l.held
    ensures Dispatch(me, req, w, l, sh) == Effect(l, sh, Contended)
  {
  }

  /** Applying one update to a room and releasing it. */
  function ApplyAndRelease(me: WorkerId, r: Room, u: Update, w: World, l: Local, sh: Shared): Effect {
    var e := Dispatch(me, Apply(r, Some(u)), w, l, sh);
    Dispatch(me, Release(r), w, e.local, e.shared)
  }

  /** A room that the worker does not hold and nobody has locked, of an existing file. */
  predicate FreeRoom(r: Room, l: Local, sh: Shared) {
    r !in l.held && r !in sh.locks && r in sh.rows && (r in l.rooms ==> l.rooms[r].refs >= 1)
  }

  /** A room dropped by a failed renewal stays open in the room service. When the worker wins it again
      its count is 2, so the release closes and writes nothing: the update reaches the row exactly when
      the room was not open already, or the row had the update. */
  lemma UpdateReachesRowIff(me: WorkerId, r: Room, u: Update, w: World, l: Local, sh: Shared)
    requires FreeRoom(r, l, sh) && GoodUpdate(Some(u))
    requires w.lock.Answered? && w.unlockAnswers && w.decodable && w.rowReadable && w.snapshotStored
    ensures var e := ApplyAndRelease(me, r, u, w, l, sh);
            && r in e.shared.rows && r !in e.shared.locks && r !in e.local.held
            && (u in e.shared.rows[r] <==> r !in l.rooms || u in sh.rows[r])
  {
    if r !in l.rooms {
      FirstAcquisitionIsFlushed(me, r, u, w, l, sh);
    } else {
      RegainedRoomIsNotFlushed(me, r, u, w, l, sh);
    }
  }

  lemma RegainedRoomIsNotFlushed(me: WorkerId, r: Room, u: Update, w: World, l: Local, sh: Shared)
    requires FreeRoom(r, l, sh) && r in l.rooms && GoodUpdate(Some(u))
    requires w.lock.Answered? && w.unlockAnswers && w.decodable
    ensures var e := ApplyAndRelease(me, r, u, w, l, sh);
            && e.shared == sh && e.local.held == l.held
            && e.local.rooms == l.rooms[r := RoomState(l.rooms[r].doc + {u}, l.rooms[r].refs, true)]
  {
    var e1 := Dispatch(me, Apply(r, Some(u)), w, l, sh);
    assert e1.local.rooms[r] == RoomState(l.rooms[r].doc + {u}, l.rooms[r].refs + 1, true);
    var e := ApplyAndRelease(me, r, u, w, l, sh);
    assert e.shared.locks == sh.locks && e.local.held == l.held;
  }

  /** By contrast the first acquisition of a room flushes it on release. */
  lemma FirstAcquisitionIsFlushed(me: WorkerId, r: Room, u: Update, w: World, l: Local, sh: Shared)
    requires FreeRoom(r, l, sh) && r !in l.rooms && GoodUpdate(Some(u))
    requires w.lock.Answered? && w.unlockAnswers && w.decodable && w.rowReadable && w.snapshotStored
    ensures var e := ApplyAndRelease(me, r, u, w, l, sh);
            e.shared == sh.(rows := sh.rows[r := sh.rows[r] + {u}]) && e.local == l
  {
    var e := ApplyAndRelease(me, r, u, w, l, sh);
    assert e.shared.locks == sh.locks;
    assert e.local.rooms == l.rooms && e.local.held == l.held;
  }

  /** A row that cannot be read when the room is opened is overwritten on release: nothing of it survives
      but the update just applied. */
  lemma UnreadableRowIsOverwritten(me: WorkerId, r: Room, u: Update, w: World, l: Local, sh: Shared)
    requires FreeRoom(r, l, sh) && r !in l.rooms && GoodUpdate(Some(u))
    requires w.lock.Answered? && w.unlockAnswers && w.decodable && !w.rowReadable && w.snapshotStored
    ensures ApplyAndRelease(me, r, u, w, l, sh) == Effect(l, sh.(rows := sh.rows[r := {u}]), Done)
  {
    var e := ApplyAndRelease(me, r, u, w, l, sh);
    assert {} + {u} == {u};
    assert e.shared.locks == sh.locks;
    assert e.local.rooms == l.rooms && e.local.held == l.held;
  }
}
