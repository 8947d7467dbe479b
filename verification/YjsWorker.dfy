/** The worker process in its own form: a mutable `heldRooms`, loops over batches, claimed pages and
    held rooms. Every method is tied to the functions of `YjsDispatch`. */
module YjsWorker {
  import opened Common
  import opened YjsDispatch

  datatype Entry = Entry(id: nat, raw: seq<string>)

  /** One call of XAUTOCLAIM: entries and the next cursor (0 is the end), or an error. */
  datatype Page = Page(entries: seq<Entry>, nextCursor: nat) | Unavailable

  /** Redis and the `files` table, as far as a worker sees them. */
  class Store {
    var locks: map<Room, WorkerId>
    var replies: map<string, Doc>
    var rows: map<Room, Doc>
    var pending: set<nat>

    function Shared(): Shared
      reads this
    {
      YjsDispatch.Shared(locks, rows, replies)
    }

    method SetNx(r: Room, me: WorkerId, reply: LockReply) returns (ok: bool)
      modifies this`locks
      ensures (Shared(), ok) == Lock(old(Shared()), me, r, reply)
      ensures ok ==> r in locks && locks[r] == me
      ensures r in old(locks) ==> locks == old(locks)
    {
      if reply.Unreached? || r in locks { return false; }
      locks := locks[r := me];
      return reply.Answered?;
    }

    method CompareAndDelete(r: Room, me: WorkerId, answers: bool)
      modifies this`locks
      ensures Shared() == Unlock(old(Shared()), me, r, answers)
    {
      if answers && r in locks && locks[r] == me { locks := locks - {r}; }
    }

    method Ack(id: nat, answers: bool)
      modifies this`pending
      ensures pending == old(pending) - (if answers then {id} else {})
    {
      if answers { pending := pending - {id}; }
    }
  }

  /** Dispatching a list of entries one after another; the environment answers entry by entry. */
  datatype Batch = Batch(local: Local, shared: Shared, pending: set<nat>)

  function HandleOne(me: WorkerId, e: Entry, w: World, ackAnswers: bool, readLoop: bool, b: Batch): Batch {
    var f := Dispatch(me, Decode(e.raw), w, b.local, b.shared);
    var acks := ackAnswers && Settles(f.outcome, readLoop);
    Batch(f.local, f.shared, if acks then b.pending - {e.id} else b.pending)
  }

  function HandleAll(me: WorkerId, es: seq<Entry>, world: nat -> World, acks: nat -> bool, readLoop: bool,
                     b: Batch): Batch
  {
    if es == [] then b
    else
      var e := es[|es| - 1];
      HandleOne(me, e, world(e.id), acks(e.id), readLoop, HandleAll(me, es[..|es| - 1], world, acks, readLoop, b))
  }

  /** The entries the reclaimer dispatches from the pages XAUTOCLAIM returns: it stops at an error, at
      an empty page, and after a page whose next cursor is the start. */
  function Reclaimed(pages: seq<Page>): seq<Entry> {
    if |pages| == 0 || pages[0].Unavailable? then []
    else if pages[0].entries == [] || pages[0].nextCursor == 0 then pages[0].entries
    else pages[0].entries + Reclaimed(pages[1..])
  }

  /** What is left to reclaim once `handled` came from the pages before `i`. */
  lemma ReclaimedStep(pages: seq<Page>, i: nat, handled: seq<Entry>)
    requires i < |pages|
    ensures Reclaimed(pages[i..]) == if pages[i].Unavailable? then []
                                     else if pages[i].entries == [] || pages[i].nextCursor == 0 then pages[i].entries
                                     else pages[i].entries + Reclaimed(pages[i + 1..])
    ensures pages[i].Page? ==>
              handled + (pages[i].entries + Reclaimed(pages[i + 1..]))
              == handled + pages[i].entries + Reclaimed(pages[i + 1..])
  {
    assert pages[i..][0] == pages[i] && pages[i..][1..] == pages[i + 1..];
  }

  lemma {:induction false} HandleAllAppend(me: WorkerId, a: seq<Entry>, c: seq<Entry>, world: nat -> World,
                                           acks: nat -> bool, readLoop: bool, b: Batch)
    ensures HandleAll(me, a + c, world, acks, readLoop, b)
         == HandleAll(me, c, world, acks, readLoop, HandleAll(me, a, world, acks, readLoop, b))
  {
    if c == [] {
      assert a + c == a;
    } else {
      assert (a + c)[..|a + c| - 1] == a + c[..|c| - 1];
      HandleAllAppend(me, a, c[..|c| - 1], world, acks, readLoop, b);
    }
  }

  /** Closing every drained room: flush it, then give its lock back. */
  function DrainOne(me: WorkerId, r: Room, stored: bool, unlocks: bool, l: Local, sh: Shared): (Local, Shared) {
    var (l1, sh1) := ReleaseRoom(l, sh, r, stored);
    (l1, Unlock(sh1, me, r, unlocks))
  }

  /** Where draining the rooms `rs` leaves the locks and the rows, whatever the order. */
  function DrainedLocks(
    me: WorkerId, rs: set<Room>, unlocked: set<Room>, locks: map<Room, WorkerId>): map<Room, WorkerId>
  {
    map r | r in locks && !(r in rs && r in unlocked && locks[r] == me) :: locks[r]
  }

  function DrainedRows(l: Local, rs: set<Room>, stored: set<Room>, rows: map<Room, Doc>): map<Room, Doc> {
    map r | r in rows :: if r in rs && r in l.rooms && l.rooms[r].refs <= 1
                         then Persist(rows, r, l.rooms[r], r in stored)[r] else rows[r]
  }

  function DrainedRooms(l: Local, rs: set<Room>): map<Room, RoomState> {
    map r | r in l.rooms && !(r in rs && l.rooms[r].refs <= 1)
      :: if r in rs then l.rooms[r].(refs := l.rooms[r].refs - 1) else l.rooms[r]
  }

  function Drained(me: WorkerId, l: Local, stored: set<Room>, unlocked: set<Room>, sh: Shared): Shared {
    Shared(DrainedLocks(me, l.held, unlocked, sh.locks), DrainedRows(l, l.held, stored, sh.rows), sh.replies)
  }

  /** One more drained room takes the set-wise description to the next one. */
  lemma DrainStep(me: WorkerId, r: Room, done: set<Room>, stored: set<Room>, unlocked: set<Room>, l: Local, sh: Shared)
    requires r !in done
    ensures DrainOne(me, r, r in stored, r in unlocked,
                     Local({}, DrainedRooms(l, done)),
                     Shared(DrainedLocks(me, done, unlocked, sh.locks), DrainedRows(l, done, stored, sh.rows),
                            sh.replies))
         == (Local({}, DrainedRooms(l, done + {r})),
             Shared(DrainedLocks(me, done + {r}, unlocked, sh.locks), DrainedRows(l, done + {r}, stored, sh.rows),
                    sh.replies))
  {
    DrainLocksStep(me, r, done, unlocked, sh.locks);
    DrainRowsStep(r, done, stored, l, sh.rows);
    DrainRoomsStep(r, done, l);
  }

  lemma DrainRoomsStep(r: Room, done: set<Room>, l: Local)
    requires r !in done
    ensures var before := DrainedRooms(l, done);
            DrainedRooms(l, done + {r})
            == if r !in before then before
               else if before[r].refs > 1 then before[r := before[r].(refs := before[r].refs - 1)]
               else before - {r}
  {
  }

  lemma DrainLocksStep(me: WorkerId, r: Room, done: set<Room>, unlocked: set<Room>, locks: map<Room, WorkerId>)
    requires r !in done
    ensures var before := DrainedLocks(me, done, unlocked, locks);
            DrainedLocks(me, done + {r}, unlocked, locks)
            == if r in unlocked && r in before && before[r] == me then before - {r} else before
  {
  }

  lemma DrainRowsStep(r: Room, done: set<Room>, stored: set<Room>, l: Local, rows: map<Room, Doc>)
    requires r !in done
    ensures var before := DrainedRows(l, done, stored, rows);
            DrainedRows(l, done + {r}, stored, rows)
            == if r in l.rooms && l.rooms[r].refs <= 1 then Persist(before, r, l.rooms[r], r in stored) else before
  {
  }

  /** What a dispatch does with an entry of each kind for a held room. */
  lemma EntryIsServed(me: WorkerId, raw: seq<string>, w: World, l: Local, sh: Shared)
    ensures forall r, a {:trigger AsksFor(raw, r, a)} ::
              AsksFor(raw, r, a) && Holds(l, r) && w.encodes && w.replyStored ==>
                Dispatch(me, Decode(raw), w, l, sh)
                == Effect(l, sh.(replies := sh.replies[a := l.rooms[r].doc]), Done)
    ensures forall r, u {:trigger Carries(raw, r, u)} ::
              Carries(raw, r, u) && Holds(l, r) && w.decodable ==>
                Dispatch(me, Decode(raw), w, l, sh)
                == Effect(Local(l.held, l.rooms[r := RoomState(l.rooms[r].doc + {u}, l.rooms[r].refs, true)]), sh, Done)
    ensures forall p, f {:trigger Concerns(raw, "release", p, f)} :: Concerns(raw, "release", p, f) ==>
              var e := Dispatch(me, Decode(raw), w, l, sh);
              e.outcome == Done && e.local.held == l.held - {Room(p, f)}
  {
    forall r, a | AsksFor(raw, r, a) && Holds(l, r) { HeldRoomIsServed(me, raw, r, a, w, l, sh); }
    forall r, u | Carries(raw, r, u) && Holds(l, r) { HeldRoomIsUpdated(me, raw, r, u, w, l, sh); }
    forall p, f | Concerns(raw, "release", p, f) { ReleaseIff(raw, p, f); }
  }

  class Worker {
    const me: WorkerId
    const store: Store
    var held: set<Room>
    var rooms: map<Room, RoomState>

    constructor (me: WorkerId, store: Store)
      ensures this.me == me && this.store == store && Local() == YjsDispatch.Local({}, map[])
    {
      this.me, this.store, held, rooms := me, store, {}, map[];
    }

    function Local(): Local
      reads this
    {
      YjsDispatch.Local(held, rooms)
    }

    function Now(): Batch
      reads this, store
    {
      Batch(Local(), store.Shared(), store.pending)
    }

    method OpenRoom(r: Room, readable: bool) returns (ok: bool)
      modifies this`rooms
      ensures ok == AcquireRoom(old(Local()), store.Shared(), r, readable).Some?
      ensures ok ==> Local() == AcquireRoom(old(Local()), store.Shared(), r, readable).value
      ensures !ok ==> Local() == old(Local())
    {
      ok := true;
      if r in rooms {
        rooms := rooms[r := rooms[r].(refs := rooms[r].refs + 1)];
      } else if !readable {
        rooms := rooms[r := RoomState({}, 1, false)];
      } else if r in store.rows {
        rooms := rooms[r := RoomState(store.rows[r], 1, false)];
      } else {
        ok := false;
      }
    }

    method CloseRoom(r: Room, stored: bool)
      modifies this`rooms, store`rows
      ensures (Local(), store.Shared()) == ReleaseRoom(old(Local()), old(store.Shared()), r, stored)
    {
      if r !in rooms { return; }
      var room := rooms[r];
      if room.refs > 1 {
        rooms := rooms[r := room.(refs := room.refs - 1)];
        return;
      }
      if room.dirty && stored && r in store.rows { store.rows := store.rows[r := room.doc]; }
      rooms := rooms - {r};
    }

    /** The common start of `apply` and `state`: win the lock, check the payload, open the room. */
    method AdmitRoom(r: Room, good: bool, w: World) returns (a: Admission)
      modifies this, store`locks
      ensures (a, store.Shared()) == Admit(me, r, good, w, old(Local()), old(store.Shared()))
      ensures Local() == if a.Admitted? then a.local else old(Local())
    {
      var mine := r in held;
      if !mine {
        var acquired := store.SetNx(r, me, w.lock);
        if !acquired { return Refused(Contended); }
      }
      if !good { return Refused(Rejected); }
      if !mine {
        var ok := OpenRoom(r, w.rowReadable);
        if !ok {
          store.CompareAndDelete(r, me, w.unlockAnswers);
          return Refused(Rejected);
        }
        held := held + {r};
      }
      return Admitted(Local());
    }

    /** Handling a decoded entry. */
    method Perform(req: Request, w: World) returns (outcome: Outcome)
      modifies this, store
      ensures Effect(Local(), store.Shared(), outcome) == Dispatch(me, req, w, old(Local()), old(store.Shared()))
      ensures store.pending == old(store.pending)
    {
      match req {
        case Malformed => return Rejected;
        case Apply(r, update) =>
          var a := AdmitRoom(r, GoodUpdate(update), w);
          if a.Refused? { return a.outcome; }
          if r in rooms && w.decodable {
            rooms := rooms[r := rooms[r].(doc := rooms[r].doc + {update.value}, dirty := true)];
          }
          return Done;
        case State(r, replyTo) =>
          var a := AdmitRoom(r, GoodReplyTo(replyTo), w);
          if a.Refused? { return a.outcome; }
          if r !in rooms { return Rejected; }
          if !w.encodes { return Threw; }
          if !w.replyStored { return ReplyFailed; }
          store.replies := store.replies[replyTo.value := rooms[r].doc];
          return Done;
        case Release(r) =>
          if r !in held { return Done; }
          held := held - {r};
          CloseRoom(r, w.snapshotStored);
          store.CompareAndDelete(r, me, w.unlockAnswers);
          return Done;
        case Unknown(_) => return Rejected;
      }
    }

    method DispatchEntry(raw: seq<string>, w: World) returns (outcome: Outcome)
      modifies this, store
      ensures Effect(Local(), store.Shared(), outcome)
           == Dispatch(me, Decode(raw), w, old(Local()), old(store.Shared()))
      ensures store.pending == old(store.pending)
      ensures forall r, a {:trigger AsksFor(raw, r, a)} ::
                AsksFor(raw, r, a) && old(Holds(Local(), r)) && w.encodes && w.replyStored ==>
                  outcome == Done && store.replies == old(store.replies)[a := old(rooms)[r].doc]
      ensures forall r, u {:trigger Carries(raw, r, u)} ::
                Carries(raw, r, u) && old(Holds(Local(), r)) && w.decodable ==>
                  outcome == Done && r in rooms && rooms[r].doc == old(rooms)[r].doc + {u}
      ensures forall p, f {:trigger Concerns(raw, "release", p, f)} ::
                Concerns(raw, "release", p, f) ==> outcome == Done && held == old(held) - {Room(p, f)}
    {
      EntryIsServed(me, raw, w, Local(), store.Shared());
      outcome := Perform(Decode(raw), w);
    }

    /** One batch of the read loop, or one page of the reclaimer. */
    method HandleBatch(entries: seq<Entry>, world: nat -> World, acks: nat -> bool, readLoop: bool)
      modifies this, store
      ensures Now() == HandleAll(me, entries, world, acks, readLoop, old(Now()))
    {
      var i := 0;
      while i < |entries|
        invariant 0 <= i <= |entries|
        invariant Now() == HandleAll(me, entries[..i], world, acks, readLoop, old(Now()))
      {
        assert entries[..i + 1][..i] == entries[..i];
        var e := entries[i];
        var outcome := DispatchEntry(e.raw, world(e.id));
        if Settles(outcome, readLoop) {
          store.Ack(e.id, acks(e.id));
        }
        i := i + 1;
      }
      assert entries[..i] == entries;
    }

    /** The reclaimer's cursor loop. */
    method ReclaimStaleEntries(pages: seq<Page>, world: nat -> World, acks: nat -> bool)
      modifies this, store
      ensures Now() == HandleAll(me, Reclaimed(pages), world, acks, false, old(Now()))
    {
      ghost var handled: seq<Entry> := [];
      var i := 0;
      while i < |pages|
        invariant 0 <= i <= |pages|
        invariant Now() == HandleAll(me, handled, world, acks, false, old(Now()))
        invariant handled + Reclaimed(pages[i..]) == Reclaimed(pages)
      {
        var page := pages[i];
        ReclaimedStep(pages, i, handled);
        if page.Unavailable? { break; }
        HandleBatch(page.entries, world, acks, false);
        HandleAllAppend(me, handled, page.entries, world, acks, false, old(Now()));
        handled := handled + page.entries;
        if page.entries == [] || page.nextCursor == 0 { break; }
        i := i + 1;
      }
      assert handled == Reclaimed(pages);
    }

    /** A renewal pass over the held rooms. */
    method RenewHeldLocks(unanswered: set<Room>)
      modifies this`held
      ensures held == Renewed(me, old(held), unanswered, store.locks)
    {
      var todo := held;
      while todo != {}
        invariant todo <= old(held)
        invariant held == Renewed(me, old(held), unanswered + todo, store.locks)
        decreases todo
      {
        var r :| r in todo;
        var ok := r in unanswered || (r in store.locks && store.locks[r] == me);
        if !ok { held := held - {r}; }
        todo := todo - {r};
      }
    }

    /** The drain at shutdown. */
    method Drain(stored: set<Room>, unlocked: set<Room>)
      modifies this, store
      ensures Local() == YjsDispatch.Local({}, DrainedRooms(old(Local()), old(held)))
      ensures store.Shared() == Drained(me, old(Local()), stored, unlocked, old(store.Shared()))
      ensures store.pending == old(store.pending)
    {
      ghost var l, sh := Local(), store.Shared();
      var drained := held;
      held := {};
      var todo := drained;
      assert DrainedRooms(l, {}) == l.rooms;
      assert DrainedLocks(me, {}, unlocked, sh.locks) == sh.locks;
      assert DrainedRows(l, {}, stored, sh.rows) == sh.rows;
      while todo != {}
        invariant todo <= drained && store.pending == old(store.pending)
        invariant Local() == YjsDispatch.Local({}, DrainedRooms(l, drained - todo))
        invariant store.Shared() == YjsDispatch.Shared(DrainedLocks(me, drained - todo, unlocked, sh.locks),
                                                       DrainedRows(l, drained - todo, stored, sh.rows), sh.replies)
        decreases todo
      {
        var r :| r in todo;
        DrainStep(me, r, drained - todo, stored, unlocked, l, sh);
        assert drained - (todo - {r}) == (drained - todo) + {r};
        CloseRoom(r, r in stored);
        store.CompareAndDelete(r, me, r in unlocked);
        todo := todo - {r};
      }
      assert drained - todo == drained;
    }
  }
}
