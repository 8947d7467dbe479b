/** Pairing windows of the companion server: the lock file, the store that polls it, and code submissions. */
module Pairing {
  const SECOND := 1_000_000_000
  const PAIRING_WINDOW_SECONDS := 60
  const MAX_PAIR_ATTEMPTS: nat := 5

  /** The lock file; its expiry is in whole Unix seconds. A write that fails part way leaves garbage. */
  datatype LockFile = Missing | Garbage | Written(code: string, expires: int)

  /** The store's window; `until` is in nanoseconds and no code means no window. */
  datatype Store = Store(code: string, until: int, attempts: nat)

  datatype Pair = Pair(file: LockFile, store: Store)

  datatype WriteOutcome = Untouched | Torn | Done

  datatype Verdict = NoWindow | Match | Wrong

  function Expiry(now: int): int { (now + PAIRING_WINDOW_SECONDS * SECOND) / SECOND }

  function Open(p: Pair, now: int, code: string, outcome: WriteOutcome): Pair {
    match outcome
    case Untouched => p
    case Torn => p.(file := Garbage)
    case Done => p.(file := Written(code, Expiry(now)))
  }

  /** One poll; `readable` is whether the file could be read, `removed` whether garbage could be deleted. */
  function Load(p: Pair, readable: bool, removed: bool): Pair {
    if !readable then p
    else match p.file
      case Missing => p
      case Garbage => if removed then p.(file := Missing) else p
      case Written(code, expires) =>
        p.(store := Store(code, expires * SECOND, if p.store.code != code then 0 else p.store.attempts))
  }

  const CLOSED := Store("", 0, 0)

  function Close(p: Pair, removed: bool): Pair { Pair(if removed then Missing else p.file, CLOSED) }

  function VerdictOf(p: Pair, now: int, code: string): Verdict {
    if p.store.code == "" || now > p.store.until then NoWindow
    else if p.store.code == code then Match
    else Wrong
  }

  /** One submission; `removed` is whether the lock file could be deleted when the window closes. */
  function Submit(p: Pair, now: int, code: string, removed: bool): Pair {
    match VerdictOf(p, now, code)
    case NoWindow => p
    case Match => Close(p, removed)
    case Wrong =>
      if p.store.attempts + 1 >= MAX_PAIR_ATTEMPTS then Close(p, removed)
      else p.(store := p.store.(attempts := p.store.attempts + 1))
  }

  // ---------------------------------------------------------------- runs and their ledger

  /** Windows opened, with code and moment; submissions accepted; wrong codes compared; and windows closed
      whose lock file survived. */
  datatype Ledger = Ledger(windows: seq<(string, int)>, wins: nat, misses: nat, survivals: nat)

  datatype World = World(pair: Pair, now: int, ledger: Ledger)

  datatype Event =
    | OpenWindow(code: string, outcome: WriteOutcome)
    | Poll(readable: bool, removed: bool)
    | Tick(elapsed: nat)
    | SubmitCode(code: string, removed: bool)

  /** The submission closes the window. */
  predicate Closes(p: Pair, now: int, code: string) {
    var verdict := VerdictOf(p, now, code);
    verdict.Match? || (verdict.Wrong? && p.store.attempts + 1 >= MAX_PAIR_ATTEMPTS)
  }

  /** The lock file still names the store's window after an attempt to delete it. */
  predicate Survives(p: Pair, removed: bool) { !removed && p.file.Written? && p.file.code == p.store.code }

  function Bit(b: bool): nat { if b then 1 else 0 }

  function Next(w: World, e: Event): World {
    match e
    case OpenWindow(code, outcome) =>
      w.(pair := Open(w.pair, w.now, code, outcome),
         ledger := w.ledger.(windows := w.ledger.windows + [(code, w.now)]))
    case Poll(readable, removed) => w.(pair := Load(w.pair, readable, removed))
    case Tick(elapsed) => w.(now := w.now + elapsed)
    case SubmitCode(code, removed) =>
      var verdict := VerdictOf(w.pair, w.now, code);
      w.(pair := Submit(w.pair, w.now, code, removed),
         ledger := w.ledger.(
           wins := w.ledger.wins + Bit(verdict.Match?), misses := w.ledger.misses + Bit(verdict.Wrong?),
           survivals := w.ledger.survivals + Bit(Closes(w.pair, w.now, code) && Survives(w.pair, removed))))
  }

  // ---------------------------------------------------------------- what is still to be had from the open windows

  /** The lock file holds a window the store does not have. */
  predicate Unloaded(p: Pair) { p.file.Written? && p.file.code != p.store.code }

  /** Successes still possible. */
  function WinsLeft(p: Pair): nat { (if p.store.code != "" then 1 else 0) + if Unloaded(p) then 1 else 0 }

  /** Wrong comparisons still possible. */
  function MissesLeft(p: Pair): int {
    (if p.store.code != "" then MAX_PAIR_ATTEMPTS - p.store.attempts else 0)
    + if Unloaded(p) then MAX_PAIR_ATTEMPTS else 0
  }

  /** A submission spends what it counts, except that a match whose lock file survives wins the same window again. */
  lemma SubmitSpendsWinsIff(p: Pair, now: int, code: string, removed: bool)
    ensures var verdict := VerdictOf(p, now, code);
            Bit(verdict.Match?) + WinsLeft(Submit(p, now, code, removed)) <= WinsLeft(p)
            <==> !(verdict.Match? && Survives(p, removed))
  {
    if VerdictOf(p, now, code).Wrong? {
      assert p.file.Written? && p.file.code == "" ==> !Survives(p, removed);
    }
  }

  /** Likewise for wrong codes: a window closed by the fifth, or matched after some, must not survive. */
  lemma SubmitSpendsMissesIff(p: Pair, now: int, code: string, removed: bool)
    requires p.store.attempts < MAX_PAIR_ATTEMPTS
    ensures var verdict := VerdictOf(p, now, code);
            Bit(verdict.Wrong?) + MissesLeft(Submit(p, now, code, removed)) <= MissesLeft(p)
            <==> !(Survives(p, removed)
                   && ((verdict.Match? && p.store.attempts > 0)
                       || (verdict.Wrong? && p.store.attempts + 1 == MAX_PAIR_ATTEMPTS)))
  {
    if VerdictOf(p, now, code).Match? && Survives(p, removed) {
      assert MissesLeft(Submit(p, now, code, removed)) == MAX_PAIR_ATTEMPTS;
    }
  }

  // ---------------------------------------------------------------- the invariant of every run

  /** A window with this code was opened by now, and `until` is at most 60 seconds after that. */
  ghost predicate OpenedFor(windows: seq<(string, int)>, now: int, code: string, until: int) {
    exists i :: 0 <= i < |windows| && windows[i].0 == code && windows[i].1 <= now
                && until <= windows[i].1 + 60_000_000_000
  }

  ghost predicate Sound(w: World) {
    && w.pair.store.attempts < MAX_PAIR_ATTEMPTS
    && w.ledger.wins + WinsLeft(w.pair) <= |w.ledger.windows| + w.ledger.survivals
    && w.ledger.misses + MissesLeft(w.pair) <= MAX_PAIR_ATTEMPTS * (|w.ledger.windows| + w.ledger.survivals)
    && (w.pair.store.code != "" ==> OpenedFor(w.ledger.windows, w.now, w.pair.store.code, w.pair.store.until))
    && (w.pair.file.Written? ==>
          OpenedFor(w.ledger.windows, w.now, w.pair.file.code, w.pair.file.expires * SECOND))
  }

  lemma OpenedForLater(
    windows: seq<(string, int)>, now: int, code: string, until: int, more: seq<(string, int)>, later: int)
    requires OpenedFor(windows, now, code, until) && now <= later
    ensures OpenedFor(windows + more, later, code, until)
  {
    var i :| 0 <= i < |windows| && windows[i].0 == code && windows[i].1 <= now
             && until <= windows[i].1 + 60_000_000_000;
    assert (windows + more)[i] == windows[i];
  }

  /** A window lasts more than 59 and at most 60 seconds: the expiry is cut to whole seconds. */
  lemma WindowLength(now: int)
    ensures now + 59_000_000_000 < Expiry(now) * 1_000_000_000 <= now + 60_000_000_000
  {
  }

  lemma OpenKeepsSound(w: World, code: string, outcome: WriteOutcome)
    requires Sound(w)
    ensures Sound(Next(w, OpenWindow(code, outcome)))
  {
    var windows := w.ledger.windows + [(code, w.now)];
    if w.pair.store.code != "" {
      OpenedForLater(w.ledger.windows, w.now, w.pair.store.code, w.pair.store.until, [(code, w.now)], w.now);
    }
    if w.pair.file.Written? {
      OpenedForLater(w.ledger.windows, w.now, w.pair.file.code, w.pair.file.expires * SECOND, [(code, w.now)], w.now);
    }
    WindowLength(w.now);
    assert windows[|w.ledger.windows|] == (code, w.now);
  }

  lemma TickKeepsSound(w: World, elapsed: nat)
    requires Sound(w)
    ensures Sound(Next(w, Tick(elapsed)))
  {
    assert w.ledger.windows + [] == w.ledger.windows;
    if w.pair.store.code != "" {
      OpenedForLater(w.ledger.windows, w.now, w.pair.store.code, w.pair.store.until, [], w.now + elapsed);
    }
    if w.pair.file.Written? {
      OpenedForLater(w.ledger.windows, w.now, w.pair.file.code, w.pair.file.expires * SECOND, [], w.now + elapsed);
    }
  }

  lemma SubmitKeepsSound(w: World, code: string, removed: bool)
    requires Sound(w)
    ensures Sound(Next(w, SubmitCode(code, removed)))
  {
    SubmitSpendsWinsIff(w.pair, w.now, code, removed);
    SubmitSpendsMissesIff(w.pair, w.now, code, removed);
    var p := Submit(w.pair, w.now, code, removed);
    assert MissesLeft(p) <= MAX_PAIR_ATTEMPTS || p.store.code != "";
  }

  lemma StepKeepsSound(w: World, e: Event)
    requires Sound(w)
    ensures Sound(Next(w, e))
  {
    match e
    case OpenWindow(code, outcome) => OpenKeepsSound(w, code, outcome);
    case Tick(elapsed) => TickKeepsSound(w, elapsed);
    case Poll(_, _) =>
    case SubmitCode(code, removed) => SubmitKeepsSound(w, code, removed);
  }

  function After(w: World, es: seq<Event>): World
    decreases |es|
  {
    if es == [] then w else After(Next(w, es[0]), es[1..])
  }

  function Start(now: int): World { World(Pair(Missing, CLOSED), now, Ledger([], 0, 0, 0)) }

  lemma {:induction false} RunsAreSound(w: World, es: seq<Event>)
    requires Sound(w)
    ensures Sound(After(w, es))
    decreases |es|
  {
    if es != [] {
      StepKeepsSound(w, es[0]);
      RunsAreSound(Next(w, es[0]), es[1..]);
    }
  }

  /** Over every run: fewer than five attempts counted; no more successes than windows opened, and at most
      five wrong comparisons for each, counting as opened again a closed window whose lock file survived;
      and the next success only for a code opened in the last 60 seconds. */
  lemma RunsAreBounded(now: int, es: seq<Event>, code: string)
    ensures var w := After(Start(now), es);
            && w.pair.store.attempts < 5
            && w.ledger.wins <= |w.ledger.windows| + w.ledger.survivals
            && w.ledger.misses <= 5 * (|w.ledger.windows| + w.ledger.survivals)
            && (VerdictOf(w.pair, w.now, code).Match? ==> OpenedFor(w.ledger.windows, w.now, code, w.now))
  {
    RunsAreSound(Start(now), es);
    var w := After(Start(now), es);
    if VerdictOf(w.pair, w.now, code).Match? {
      var windows := w.ledger.windows;
      var i :| 0 <= i < |windows| && windows[i].0 == code && windows[i].1 <= w.now
               && w.pair.store.until <= windows[i].1 + 60_000_000_000;
    }
  }

  /** The allowance for survivors is needed: one window whose lock file cannot be deleted is won twice. */
  lemma SurvivingFileIsWonAgain(code: string)
    requires code != ""
    ensures var poll := Poll(true, true);
            var es := [OpenWindow(code, Done), poll, SubmitCode(code, false), poll, SubmitCode(code, true)];
            var w := After(Start(0), es);
            w.ledger.wins == 2 && |w.ledger.windows| == 1 && w.ledger.survivals == 1
  {
    var e1, e2, e3, e5 := OpenWindow(code, Done), Poll(true, true), SubmitCode(code, false), SubmitCode(code, true);
    var w1 := Next(Start(0), e1);
    var w2 := Next(w1, e2);
    var w3 := Next(w2, e3);
    var w4 := Next(w3, e2);
    var w5 := Next(w4, e5);
    assert After(Start(0), [e1, e2, e3, e2, e5]) == w5 by {
      assert [e1, e2, e3, e2, e5][1..] == [e2, e3, e2, e5] && [e2, e3, e2, e5][1..] == [e3, e2, e5];
      assert [e3, e2, e5][1..] == [e2, e5] && [e2, e5][1..] == [e5] && [e5][1..] == [];
      assert After(w4, [e5]) == After(w5, []) == w5;
      assert After(w2, [e3, e2, e5]) == After(w3, [e2, e5]) == After(w4, [e5]);
      assert After(Start(0), [e1, e2, e3, e2, e5]) == After(w1, [e2, e3, e2, e5]) == After(w2, [e3, e2, e5]);
    }
  }

  /** A window that was written and polled accepts its own code exactly until it expires, whatever went before. */
  lemma OpenedCodeWorksIff(w: World, code: string, removed: bool, elapsed: nat)
    requires code != ""
    ensures var p := Load(Open(w.pair, w.now, code, Done), true, removed);
            VerdictOf(p, w.now + elapsed, code).Match? <==> w.now + elapsed <= Expiry(w.now) * 1_000_000_000
    ensures elapsed <= 59_000_000_000 ==>
              VerdictOf(Load(Open(w.pair, w.now, code, Done), true, removed), w.now + elapsed, code).Match?
  {
    WindowLength(w.now);
  }

  // ---------------------------------------------------------------- five tries

  /** Which submissions close the window: the right code, and the fifth wrong one, before it expires. */
  lemma ClosesIff(p: Pair, now: int, code: string, removed: bool)
    ensures Closes(p, now, code)
            <==> p.store.code != "" && now <= p.store.until && (code == p.store.code || p.store.attempts >= 4)
    ensures Closes(p, now, code) ==>
              Submit(p, now, code, removed) == Pair(if removed then Missing else p.file, Store("", 0, 0))
  {
  }

  /** A poll while the window stands, or a wrong code. */
  predicate PollOrMiss(e: Event, code: string) {
    (e.Poll? && e.removed) || (e.SubmitCode? && e.removed && e.code != code)
  }

  function Misses(es: seq<Event>): nat {
    if es == [] then 0 else (if es[0].SubmitCode? then 1 else 0) + Misses(es[1..])
  }

  /** The window in the store, and still in its lock file, after `tries` wrong codes. */
  function Standing(code: string, expires: int, tries: nat): Pair {
    Pair(Written(code, expires), Store(code, expires * 1_000_000_000, tries))
  }

  /** Polling the lock file again neither gives tries back nor takes any: up to the fifth wrong code the
      window stands with the tries counted, from then on there is none. */
  lemma {:induction false} PollsKeepTries(w: World, code: string, expires: int, tries: nat, es: seq<Event>)
    requires code != "" && tries < 5 && w.now <= expires * 1_000_000_000
    requires w.pair == Standing(code, expires, tries) && forall e :: e in es ==> PollOrMiss(e, code)
    ensures After(w, es).pair == if tries + Misses(es) < 5 then Standing(code, expires, tries + Misses(es))
                                 else Pair(Missing, Store("", 0, 0))
    decreases |es|
  {
    if es != [] {
      var e, next := es[0], Next(w, es[0]);
      assert e in es && forall x :: x in es[1..] ==> x in es;
      if e.SubmitCode? && tries == 4 {
        ClosedStaysClosed(next, es[1..], code);
      } else {
        PollsKeepTries(next, code, expires, if e.SubmitCode? then tries + 1 else tries, es[1..]);
      }
    }
  }

  lemma {:induction false} ClosedStaysClosed(w: World, es: seq<Event>, code: string)
    requires w.pair == Pair(Missing, Store("", 0, 0)) && forall e :: e in es ==> PollOrMiss(e, code)
    ensures After(w, es).pair == w.pair
    decreases |es|
  {
    if es != [] {
      assert es[0] in es && forall x :: x in es[1..] ==> x in es;
      ClosedStaysClosed(Next(w, es[0]), es[1..], code);
    }
  }

  /** A window with another code than the store's gets five tries of its own, whatever was used up before:
      through any polls, four wrong codes leave it standing, and the fifth closes it. */
  lemma NewCodeGetsFiveTries(w: World, code: string, removed: bool, es: seq<Event>)
    requires code != "" && code != w.pair.store.code && forall e :: e in es ==> PollOrMiss(e, code)
    ensures var opening := [OpenWindow(code, Done), Poll(true, removed)];
            After(w, opening + es).pair
            == if Misses(es) < 5 then Standing(code, Expiry(w.now), Misses(es)) else Pair(Missing, Store("", 0, 0))
  {
    var e1, e2 := OpenWindow(code, Done), Poll(true, removed);
    var w2 := Next(Next(w, e1), e2);
    assert ([e1, e2] + es)[1..] == [e2] + es && ([e2] + es)[1..] == es;
    assert After(w, [e1, e2] + es) == After(Next(w, e1), [e2] + es) == After(w2, es);
    assert w2.pair == Standing(code, Expiry(w.now), 0);
    WindowLength(w.now);
    PollsKeepTries(w2, code, Expiry(w.now), 0, es);
  }

  /** A poll that reads nothing changes nothing; garbage is deleted, if it can be, and opens no window. */
  lemma UnreadFileOpensNothing(p: Pair, readable: bool, removed: bool)
    requires !readable || !p.file.Written?
    ensures Load(p, readable, removed).store == p.store
    ensures Load(p, readable, removed).file == if readable && removed && p.file.Garbage? then Missing else p.file
  {
  }

  // ---------------------------------------------------------------- in the code's own form

  class PairStore {
    var file: LockFile
    var code: string
    var until: int
    var attempts: nat

    function Current(): Pair
      reads this
    {
      Pair(file, Store(code, until, attempts))
    }

    constructor ()
      ensures Current() == Pair(Missing, CLOSED)
    {
      file, code, until, attempts := Missing, "", 0, 0;
    }

    method StartPairingWindow(drawn: string, now: int, outcome: WriteOutcome)
      modifies this`file
      ensures Current() == Open(old(Current()), now, drawn, outcome)
    {
      var expires := (now + PAIRING_WINDOW_SECONDS * SECOND) / SECOND;
      match outcome
      case Untouched =>
      case Torn => file := Garbage;
      case Done => file := Written(drawn, expires);
    }

    method LoadFromFile(readable: bool, removed: bool)
      modifies this
      ensures Current() == Load(old(Current()), readable, removed)
    {
      if !readable || file.Missing? { return; }
      if file.Garbage? {
        if removed { file := Missing; }
        return;
      }
      if code != file.code { attempts := 0; }
      code := file.code;
      until := file.expires * SECOND;
    }

    method CloseWindow(removed: bool)
      modifies this
      ensures Current() == Close(old(Current()), removed)
    {
      code, until, attempts := "", 0, 0;
      if removed { file := Missing; }
    }

    method Consume(submitted: string, now: int, removed: bool) returns (ok: bool)
      modifies this
      ensures Current() == Submit(old(Current()), now, submitted, removed)
      ensures ok == VerdictOf(old(Current()), now, submitted).Match?
    {
      if code == "" || now > until { return false; }
      if code == submitted {
        CloseWindow(removed);
        return true;
      }
      attempts := attempts + 1;
      if attempts >= MAX_PAIR_ATTEMPTS { CloseWindow(removed); }
      return false;
    }
  }
}
