/** `db.transaction` on a shared client: nested transactions flattened to SAVEPOINT, RELEASE and
    ROLLBACK TO, against their recursive meaning. */
module Savepoints {
  import opened Common

  type Table = map<string, string>

  /** What a transaction body does. `Attempt` is a try/catch of the caller that swallows a failure;
      `Choose` reads a row and branches on it. */
  datatype Op =
    | Write(key: string, value: string)
    | BadSql
    | Throw
    | Choose(key: string, value: string, yes: seq<Op>, no: seq<Op>)
    | Attempt(body: seq<Op>)
    | Transaction(body: seq<Op>)

  // ---------------------------------------------------------------- the database session

  datatype Saved = Saved(name: nat, table: Table)

  /** One connection inside a transaction block. After a failed statement the block is aborted. */
  datatype Session = Session(table: Table, stack: seq<Saved>, aborted: bool)

  datatype Command =
    | Savepoint(name: nat) | Release(name: nat) | RollbackTo(name: nat) | Put(key: string, value: string) | Get | Bad

  /** The most recent savepoint of that name. */
  function Find(stack: seq<Saved>, name: nat): (i: Option<nat>)
    ensures i.Some? ==> i.value < |stack| && stack[i.value].name == name
    ensures i.Some? ==> forall j :: i.value < j < |stack| ==> stack[j].name != name
    ensures i.None? ==> forall j :: 0 <= j < |stack| ==> stack[j].name != name
  {
    if stack == [] then None
    else if stack[|stack| - 1].name == name then Some(|stack| - 1)
    else Find(stack[..|stack| - 1], name)
  }

  /** A command and whether it succeeded. RELEASE removes the savepoint and everything above it,
      ROLLBACK TO only what is above it; only ROLLBACK TO works in an aborted block. */
  function Execute(c: Command, s: Session): (Session, bool) {
    var failed := (s.(aborted := true), false);
    if c.RollbackTo? then
      match Find(s.stack, c.name)
      case None => failed
      case Some(i) => (Session(s.stack[i].table, s.stack[..i + 1], false), true)
    else if s.aborted then failed
    else
      match c
      case Savepoint(n) => (s.(stack := s.stack + [Saved(n, s.table)]), true)
      case Release(n) =>
        (match Find(s.stack, n)
         case None => failed
         case Some(i) => (s.(stack := s.stack[..i]), true))
      case Put(k, v) => (s.(table := s.table[k := v]), true)
      case Get => (s, true)
      case Bad => failed
  }

  /** A statement fails exactly when it leaves the block aborted, and ROLLBACK TO fails only for lack of a
      savepoint of that name. */
  lemma FailureAborts(c: Command, s: Session)
    ensures Execute(c, s).1 <==> !Execute(c, s).0.aborted
    ensures c.RollbackTo? ==> (Execute(c, s).1 <==> exists x :: x in s.stack && x.name == c.name)
    ensures s.aborted && !c.RollbackTo? ==> Execute(c, s) == (s, false)
  {
  }

  // ---------------------------------------------------------------- the flattened run

  /** The session, the savepoint counter, and whether an error was thrown. */
  datatype State = State(session: Session, counter: nat, threw: bool)

  function Step(c: Command, s: Session, k: nat): State {
    var (s1, ok) := Execute(c, s);
    State(s1, k, !ok)
  }

  /** The names the code uses. */
  function Counter(k: nat): nat { k }

  /** `name` turns the counter into the savepoint's name; the code uses the counter itself. */
  function Run(op: Op, s: Session, k: nat, name: nat -> nat): State
    decreases op, 0
  {
    match op
    case Write(key, value) => Step(Put(key, value), s, k)
    case BadSql => Step(Bad, s, k)
    case Throw => State(s, k, true)
    case Choose(key, value, yes, no) =>
      var (s1, ok) := Execute(Get, s);
      if !ok then State(s1, k, true)
      else if key in s1.table && s1.table[key] == value then RunAll(yes, s1, k, name) else RunAll(no, s1, k, name)
    case Attempt(body) => RunAll(body, s, k, name).(threw := false)
    case Transaction(body) =>
      var sp := name(k + 1);
      var (s1, ok) := Execute(Savepoint(sp), s);
      if !ok then State(s1, k + 1, true)
      else
        var r := RunAll(body, s1, k + 1, name);
        var (s3, released) := if r.threw then (r.session, false) else Execute(Release(sp), r.session);
        if released then State(s3, r.counter, false)
        else State(Execute(RollbackTo(sp), s3).0, r.counter, true)
  }

  function RunAll(ops: seq<Op>, s: Session, k: nat, name: nat -> nat): State
    decreases ops, 1
  {
    if ops == [] then State(s, k, false)
    else
      var r := Run(ops[0], s, k, name);
      if r.threw then r else RunAll(ops[1..], r.session, r.counter, name)
  }

  // ---------------------------------------------------------------- the recursive meaning

  /** A table, whether an SQL error has been swallowed since the enclosing transaction began, and
      whether an error is being thrown. */
  datatype Result = Result(table: Table, poisoned: bool, threw: bool)

  /** A failed transaction leaves its entry state, a successful one keeps its body's effects. While
      poisoned every statement throws, and a poisoned body makes its transaction fail. */
  function Meaning(op: Op, t: Table, poisoned: bool): Result
    decreases op, 0
  {
    match op
    case Throw => Result(t, poisoned, true)
    case Attempt(body) => MeaningAll(body, t, poisoned).(threw := false)
    case Write(key, value) => if poisoned then Result(t, true, true) else Result(t[key := value], false, false)
    case BadSql => Result(t, true, true)
    case Choose(key, value, yes, no) =>
      if poisoned then Result(t, true, true)
      else if key in t && t[key] == value then MeaningAll(yes, t, false)
      else MeaningAll(no, t, false)
    case Transaction(body) =>
      if poisoned then Result(t, true, true)
      else
        var r := MeaningAll(body, t, false);
        if r.threw || r.poisoned then Result(t, false, true) else Result(r.table, false, false)
  }

  function MeaningAll(ops: seq<Op>, t: Table, poisoned: bool): Result
    decreases ops, 1
  {
    if ops == [] then Result(t, poisoned, false)
    else
      var r := Meaning(ops[0], t, poisoned);
      if r.threw then r else MeaningAll(ops[1..], r.table, r.poisoned)
  }

  // ---------------------------------------------------------------- they agree

  ghost predicate Unique(name: nat -> nat) {
    forall i: nat, j: nat :: name(i) == name(j) ==> i == j
  }

  /** Named after a counter value above `k`, up to `k'`. */
  ghost predicate NamedWithin(e: Saved, k: nat, k': nat, name: nat -> nat) {
    exists j: nat :: k < j <= k' && e.name == name(j)
  }

  /** What a run does to the stack: the old part is untouched, and everything above it was named
      after a counter value of this run. */
  ghost predicate Grows(before: seq<Saved>, k: nat, after: seq<Saved>, k': nat, name: nat -> nat) {
    && k <= k' && |before| <= |after| && after[..|before|] == before
    && forall i :: |before| <= i < |after| ==> NamedWithin(after[i], k, k', name)
  }

  ghost predicate Agrees(r: State, s: Session, k: nat, m: Result, name: nat -> nat) {
    && r.session.table == m.table && r.session.aborted == m.poisoned && r.threw == m.threw
    && Grows(s.stack, k, r.session.stack, r.counter, name)
  }

  lemma GrowsTransitive(a: seq<Saved>, k: nat, b: seq<Saved>, k1: nat, c: seq<Saved>, k2: nat, name: nat -> nat)
    requires Grows(a, k, b, k1, name) && Grows(b, k1, c, k2, name)
    ensures Grows(a, k, c, k2, name)
  {
    assert c[..|a|] == c[..|b|][..|a|];
    forall i | |a| <= i < |c|
      ensures NamedWithin(c[i], k, k2, name)
    {
      if i < |b| {
        assert c[i] == c[..|b|][i] == b[i] && NamedWithin(b[i], k, k1, name);
      } else {
        assert NamedWithin(c[i], k1, k2, name);
      }
    }
  }

  /** After the body, the transaction's own savepoint is the most recent one of its name. */
  lemma OwnSavepointIsFound(base: seq<Saved>, t: Table, k: nat, after: seq<Saved>, k': nat, name: nat -> nat)
    requires Unique(name) && Grows(base + [Saved(name(k + 1), t)], k + 1, after, k', name)
    ensures Find(after, name(k + 1)) == Some(|base|)
    ensures after[..|base|] == base && after[|base|] == Saved(name(k + 1), t)
    ensures after[..|base| + 1] == base + [Saved(name(k + 1), t)]
  {
    var b1 := base + [Saved(name(k + 1), t)];
    assert after[..|b1|] == b1;
    assert after[|base|] == b1[|base|];
    assert after[..|base|] == b1[..|base|];
    forall i | |b1| <= i < |after| ensures after[i].name != name(k + 1) {
      assert NamedWithin(after[i], k + 1, k', name);
    }
  }

  /** Flattened run and recursive meaning agree on every tree of nested transactions, although
      ROLLBACK TO leaves its savepoint on the stack. */
  lemma {:induction false} RunMeans(op: Op, s: Session, k: nat, name: nat -> nat)
    requires Unique(name)
    ensures Agrees(Run(op, s, k, name), s, k, Meaning(op, s.table, s.aborted), name)
    decreases op, 0
  {
    match op
    case Write(_, _) =>
    case BadSql =>
    case Throw =>
    case Choose(_, _, yes, no) =>
      RunAllMeans(yes, s, k, name);
      RunAllMeans(no, s, k, name);
    case Attempt(body) => RunAllMeans(body, s, k, name);
    case Transaction(body) =>
      if !s.aborted {
        var s1 := s.(stack := s.stack + [Saved(name(k + 1), s.table)]);
        RunAllMeans(body, s1, k + 1, name);
        TransactionMeans(body, s, k, name);
      }
  }

  lemma TransactionMeans(body: seq<Op>, s: Session, k: nat, name: nat -> nat)
    requires Unique(name) && !s.aborted
    requires var s1 := s.(stack := s.stack + [Saved(name(k + 1), s.table)]);
             Agrees(RunAll(body, s1, k + 1, name), s1, k + 1, MeaningAll(body, s.table, false), name)
    ensures var r := Run(Transaction(body), s, k, name);
            && Agrees(r, s, k, Meaning(Transaction(body), s.table, false), name)
            && r.session.stack == if r.threw then s.stack + [Saved(name(k + 1), s.table)] else s.stack
  {
    var s1 := s.(stack := s.stack + [Saved(name(k + 1), s.table)]);
    var b := RunAll(body, s1, k + 1, name);
    OwnSavepointIsFound(s.stack, s.table, k, b.session.stack, b.counter, name);
  }

  lemma {:induction false} RunAllMeans(ops: seq<Op>, s: Session, k: nat, name: nat -> nat)
    requires Unique(name)
    ensures Agrees(RunAll(ops, s, k, name), s, k, MeaningAll(ops, s.table, s.aborted), name)
    decreases ops, 1
  {
    if ops != [] {
      var r := Run(ops[0], s, k, name);
      RunMeans(ops[0], s, k, name);
      if !r.threw {
        RunAllMeans(ops[1..], r.session, r.counter, name);
        var r2 := RunAll(ops[1..], r.session, r.counter, name);
        GrowsTransitive(s.stack, k, r.session.stack, r.counter, r2.session.stack, r2.counter, name);
      }
    }
  }

  /** The transaction of the code, in a healthy session: on failure the entry state is back and only
      its own savepoint is left behind; on success the body's effects are kept and the stack is as before. */
  lemma TransactionIsAtomic(body: seq<Op>, s: Session, k: nat)
    requires !s.aborted
    ensures var r := Run(Transaction(body), s, k, Counter);
            var m := MeaningAll(body, s.table, false);
            if m.threw || m.poisoned
            then r.threw && r.session == Session(s.table, s.stack + [Saved(k + 1, s.table)], false)
            else !r.threw && r.session == Session(m.table, s.stack, false)
  {
    RunAllMeans(body, s.(stack := s.stack + [Saved(Counter(k + 1), s.table)]), k + 1, Counter);
    TransactionMeans(body, s, k, Counter);
  }

  /** An inner transaction that only throws leaves its savepoint behind, and the catch goes on. */
  lemma CaughtTransaction(s: Session, k: nat, name: nat -> nat)
    requires !s.aborted
    ensures Run(Attempt([Transaction([Throw])]), s, k, name)
         == State(s.(stack := s.stack + [Saved(name(k + 1), s.table)]), k + 1, false)
  {
    var s1 := s.(stack := s.stack + [Saved(name(k + 1), s.table)]);
    assert RunAll([Throw], s1, k + 1, name) == State(s1, k + 1, true);
    assert s1.stack[..|s.stack| + 1] == s1.stack;
    assert Run(Transaction([Throw]), s, k, name) == State(s1, k + 1, true);
    assert RunAll([Transaction([Throw])], s, k, name) == State(s1, k + 1, true);
  }

  /** A transaction that writes, catches a failed inner one, and then throws. */
  function WriteCatchThrowOps(key: string, value: string): seq<Op> {
    [Write(key, value), Attempt([Transaction([Throw])]), Throw]
  }

  lemma FailedOuterMeansNothing(key: string, value: string, t: Table)
    ensures Meaning(Transaction(WriteCatchThrowOps(key, value)), t, false) == Result(t, false, true)
  {
    var name := Counter;
    WriteCatchThrow(Session(t, [], false), key, value, 0, name);
    RunAllMeans(WriteCatchThrowOps(key, value), Session(t, [], false), 0, name);
  }

  /** Names must be fresh: with one name for all savepoints, the savepoint a failed inner transaction
      leaves behind captures the outer rollback, and the write stays. */
  lemma ReusedNamesBreakNesting(key: string, value: string, t: Table, name: nat -> nat)
    requires name(1) == name(2)
    ensures var op := Transaction(WriteCatchThrowOps(key, value));
            && Meaning(op, t, false).table == t
            && Run(op, Session(t, [], false), 0, name).session.table == t[key := value]
  {
    FailedOuterMeansNothing(key, value, t);
    var s1 := Session(t, [] + [Saved(name(1), t)], false);
    var t2 := t[key := value];
    var s3 := Session(t2, s1.stack + [Saved(name(2), t2)], false);
    WriteCatchThrow(s1, key, value, 1, name);
    assert Find(s3.stack, name(1)) == Some(1);
  }

  /** The body of that transaction: a write, a failed transaction that is caught, a throw. */
  lemma WriteCatchThrow(s: Session, key: string, value: string, k: nat, name: nat -> nat)
    requires !s.aborted
    ensures var t := s.table[key := value];
            RunAll(WriteCatchThrowOps(key, value), s, k, name)
            == State(Session(t, s.stack + [Saved(name(k + 1), t)], false), k + 1, true)
  {
    var caught := Attempt([Transaction([Throw])]);
    var body, rest := [Write(key, value), caught, Throw], [caught, Throw];
    var s2 := s.(table := s.table[key := value]);
    var s3 := s2.(stack := s2.stack + [Saved(name(k + 1), s2.table)]);
    CaughtTransaction(s2, k, name);
    assert body[1..] == rest && rest[1..] == [Throw] && [Throw][1..] == [];
    assert RunAll([Throw], s3, k + 1, name) == State(s3, k + 1, true);
    assert RunAll(rest, s2, k, name) == State(s3, k + 1, true);
  }

  // ---------------------------------------------------------------- the pool path

  /** No nested transaction: inside a pooled transaction those would run on another connection. */
  predicate Flat(ops: seq<Op>) {
    forall op :: op in ops ==>
      match op
      case Transaction(_) => false
      case Attempt(b) => Flat(b)
      case Choose(_, _, y, n) => Flat(y) && Flat(n)
      case _ => true
  }

  /** BEGIN, the body, then COMMIT or ROLLBACK: COMMIT of an aborted block rolls back and reports success. */
  function PoolTransaction(body: seq<Op>, t: Table): (Table, bool) {
    var r := RunAll(body, Session(t, [], false), 0, Counter);
    if r.threw then (t, true)
    else if r.session.aborted then (t, false)
    else (r.session.table, false)
  }

  /** Both paths leave the same table. They report the same outcome unless the body swallowed an SQL
      error and returned normally: then only the savepoint path throws. */
  lemma PoolAgreesIff(body: seq<Op>, s: Session, k: nat)
    requires Flat(body) && !s.aborted
    ensures var (t, threw) := PoolTransaction(body, s.table);
            var r := Run(Transaction(body), s, k, Counter);
            var m := MeaningAll(body, s.table, false);
            && t == r.session.table
            && (threw == r.threw <==> !(m.poisoned && !m.threw))
  {
    TransactionIsAtomic(body, s, k);
    RunAllMeans(body, Session(s.table, [], false), 0, Counter);
  }

  // ---------------------------------------------------------------- in the code's own form

  class Client {
    var table: Table
    var stack: seq<Saved>
    var aborted: bool

    function Current(): Session
      reads this
    {
      Session(table, stack, aborted)
    }

    method Query(c: Command) returns (ok: bool)
      modifies this
      ensures (Current(), ok) == Execute(c, old(Current()))
    {
      ok := true;
      if c.RollbackTo? {
        var i := Find(stack, c.name);
        if i.None? { aborted := true; return false; }
        table, stack, aborted := stack[i.value].table, stack[..i.value + 1], false;
        return;
      }
      if aborted { return false; }
      match c {
        case Savepoint(n) => stack := stack + [Saved(n, table)];
        case Release(n) =>
          var i := Find(stack, n);
          if i.None? { aborted := true; return false; }
          stack := stack[..i.value];
        case Put(k, v) => table := table[k := v];
        case Get =>
        case Bad => aborted := true; return false;
      }
    }
  }

  class Db {
    const client: Client
    var savepointCounter: nat

    constructor (client: Client)
      ensures this.client == client && savepointCounter == 0
    {
      this.client, savepointCounter := client, 0;
    }

    /** The state after running, with the outcome of the call. */
    ghost function Now(threw: bool): State
      reads this, client
    {
      State(client.Current(), savepointCounter, threw)
    }

    method DoTransaction(body: seq<Op>) returns (threw: bool)
      modifies this, client
      ensures Now(threw) == Run(Transaction(body), old(client.Current()), old(savepointCounter), Counter)
      decreases body, 2
    {
      savepointCounter := savepointCounter + 1;
      var sp := savepointCounter;
      var ok := client.Query(Savepoint(sp));
      if !ok { return true; }
      threw := RunBody(body);
      if !threw {
        var released := client.Query(Release(sp));
        if released { return false; }
      }
      var _ := client.Query(RollbackTo(sp));
      return true;
    }

    method RunBody(ops: seq<Op>) returns (threw: bool)
      modifies this, client
      ensures Now(threw) == RunAll(ops, old(client.Current()), old(savepointCounter), Counter)
      decreases ops, 1
    {
      if ops == [] { return false; }
      threw := RunOp(ops[0]);
      if !threw { threw := RunBody(ops[1..]); }
    }

    method RunOp(op: Op) returns (threw: bool)
      modifies this, client
      ensures Now(threw) == Run(op, old(client.Current()), old(savepointCounter), Counter)
      decreases op, 0
    {
      match op {
        case Write(key, value) =>
          var ok := client.Query(Put(key, value));
          return !ok;
        case BadSql =>
          var ok := client.Query(Bad);
          return !ok;
        case Throw => return true;
        case Choose(key, value, yes, no) =>
          var ok := client.Query(Get);
          if !ok { return true; }
          if key in client.table && client.table[key] == value {
            threw := RunBody(yes);
          } else {
            threw := RunBody(no);
          }
        case Attempt(body) =>
          var _ := RunBody(body);
          return false;
        case Transaction(body) => threw := DoTransaction(body);
      }
    }
  }
}
