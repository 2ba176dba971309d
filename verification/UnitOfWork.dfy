/**
 Transactions: a PostgreSQL session as seen through one client, the unit of work that owns the
 client, and the helper that runs a callback atomically.
 */
module UnitOfWork {
  import opened Wrappers

  type Effect = string

  /** A read is a statement without effects. */
  datatype Command = Begin | Commit | Rollback | Statement(effects: seq<Effect>)

  /** The fate of one command: carried out, rejected, or cut off before or after the server ran it. */
  datatype Reply = Accepted | Refused | LostBefore | LostAfter

  datatype Tx = Idle | Open | Aborted

  datatype Session = Session(
    committed: seq<Effect>,
    staged: seq<Effect>,
    tx: Tx,
    broken: bool,
    trace: seq<Command>)

  datatype Executed = Executed(session: Session, ok: bool)

  /** The server carries a command out. */
  function Perform(s: Session, c: Command): Executed {
    match c
    case Begin =>
      // In an open transaction this is a warning, in an aborted one an error.
      match s.tx {
        case Idle => Executed(s.(tx := Open, staged := []), true)
        case Open => Executed(s, true)
        case Aborted => Executed(s, false)
      }
    case Commit =>
      // In an aborted transaction this reports success and rolls back.
      Executed(s.(committed := if s.tx == Open then s.committed + s.staged else s.committed, staged := [], tx := Idle), true)
    case Rollback => Executed(s.(staged := [], tx := Idle), true)
    case Statement(effects) =>
      match s.tx
      case Idle => Executed(s.(committed := s.committed + effects), true)
      case Open => Executed(s.(staged := s.staged + effects), true)
      case Aborted => Executed(s, false)
  }

  /** The server rejects a command: this poisons an open transaction, but a failed commit ends it. */
  function Reject(s: Session, c: Command): Session {
    match c
    case Commit => s.(staged := [], tx := Idle)
    case Rollback => s
    case _ => if s.tx == Open then s.(tx := Aborted) else s
  }

  /** A lost connection: the server discards whatever is not committed. */
  function Lose(s: Session): Session {
    s.(staged := [], tx := Idle, broken := true)
  }

  function Exec(s: Session, c: Command, reply: Reply): Executed {
    var t := s.(trace := s.trace + [c]);
    if s.broken then Executed(t, false)
    else
      match reply
      case Accepted => Perform(t, c)
      case Refused => Executed(Reject(t, c), false)
      case LostBefore => Executed(Lose(t), false)
      case LostAfter => Executed(Lose(Perform(t, c).session), false)
  }

  /** `replies` decides the fate of the n-th command of the session. */
  function Issue(s: Session, c: Command, replies: nat -> Reply): Executed {
    Exec(s, c, replies(|s.trace|))
  }

  // ---- Callbacks ------------------------------------------------------------------------------

  /**
   A transaction callback: statements chosen by the outcome of earlier ones, then a result. `Gone` is
   the point at which the caller drops the future, which may be before or after any statement.
   */
  datatype Callback<T> =
    | Return(result: Result<T>)
    | Do(effects: seq<Effect>, onOk: Callback<T>, onErr: Callback<T>)
    | Gone

  /** No result when the callback was abandoned. */
  datatype Ran<T> = Ran(session: Session, result: Option<Result<T>>)

  function RunCallback<T>(s: Session, f: Callback<T>, replies: nat -> Reply): Ran<T>
    decreases f
  {
    match f
    case Return(result) => Ran(s, Some(result))
    case Gone => Ran(s, None)
    case Do(effects, onOk, onErr) =>
      var e := Issue(s, Statement(effects), replies);
      RunCallback(e.session, if e.ok then onOk else onErr, replies)
  }

  /** The same callback, abandoned once `n` statements have been issued. */
  function Cut<T>(f: Callback<T>, n: nat): Callback<T>
    decreases f
  {
    if n == 0 then Gone
    else
      match f
      case Do(effects, onOk, onErr) => Do(effects, Cut(onOk, n - 1), Cut(onErr, n - 1))
      case _ => f
  }

  /** Every statement failure ends the callback without a value. */
  predicate Propagates<T>(f: Callback<T>) {
    match f
    case Do(_, onOk, onErr) => Propagates(onOk) && (onErr.Gone? || (onErr.Return? && onErr.result.Err?))
    case _ => true
  }

  datatype Failure = NoClient | NotBegun | CommitFailed | CallbackFailed(error: string)

  datatype TxResult<T> = Done(value: T) | Failed(failure: Failure) | Abandoned

  datatype TxRun<T> = TxRun(session: Session, result: TxResult<T>)

  /** Where, outside the callback, the caller drops the future: while it awaits this command's reply. */
  datatype Stop = Never | AtBegin | AtCommit | AtRollback

  /** `PgUnitOfWork::commit` on a live client: a failed commit is followed by a rollback attempt. */
  function CommitSpec(s: Session, replies: nat -> Reply, stop: Stop): (r: TxRun<()>)
    ensures r.result.Failed? ==> r.result.failure == CommitFailed
  {
    var e := Issue(s, Commit, replies);
    if stop == AtCommit then TxRun(e.session, Abandoned)
    else if e.ok then TxRun(e.session, Done(()))
    else TxRun(Issue(e.session, Rollback, replies).session, if stop == AtRollback then Abandoned else Failed(CommitFailed))
  }

  /** What becomes of a client that is still owned when the unit of work is dropped. */
  function DropSpec(s: Session, replies: nat -> Reply, hasRuntime: bool): Session {
    if hasRuntime then Issue(s, Rollback, replies).session else s
  }

  /** What `transaction` does to a session: begin, callback, then commit or rollback. */
  function TransactionSpec<T>(s: Session, f: Callback<T>, replies: nat -> Reply, stop: Stop, hasRuntime: bool): TxRun<T> {
    var b := Issue(s, Begin, replies);
    if stop == AtBegin then TxRun(b.session, Abandoned)
    else if !b.ok then TxRun(b.session, Failed(NotBegun))
    else
      var r := RunCallback(b.session, f, replies);
      match r.result
      case None => TxRun(DropSpec(r.session, replies, hasRuntime), Abandoned)
      case Some(Ok(value)) =>
        var c := CommitSpec(r.session, replies, stop);
        TxRun(c.session, match c.result case Done(_) => Done(value) case Failed(e) => Failed(e) case Abandoned => Abandoned)
      case Some(Err(error)) =>
        TxRun(Issue(r.session, Rollback, replies).session,
              if stop == AtRollback then Abandoned else Failed(CallbackFailed(error)))
  }

  // ---- The code -------------------------------------------------------------------------------

  class PgClient {
    const replies: nat -> Reply
    var session: Session

    constructor (replies: nat -> Reply)
      ensures this.replies == replies && session == Session([], [], Idle, false, [])
    {
      this.replies, session := replies, Session([], [], Idle, false, []);
    }

    method Execute(c: Command) returns (ok: bool)
      modifies this
      ensures Executed(session, ok) == Issue(old(session), c, replies)
    {
      var e := Issue(session, c, replies);
      session := e.session;
      ok := e.ok;
    }
  }

  const COMPLETED: string := "unit of work has already completed"

  /** Owner of a pinned client until commit, rollback or drop takes it out. */
  class PgUnitOfWork {
    var client: PgClient?
    /** How often a client has left this unit of work. */
    ghost var released: nat

    constructor (client: PgClient)
      ensures this.client == client && released == 0
    {
      this.client, released := client, 0;
    }

    /** One statement on the pinned client; a completed unit of work has none. */
    method Execute(effects: seq<Effect>) returns (ok: bool)
      modifies client
      ensures client == null ==> !ok
      ensures client != null ==> Executed(client.session, ok) == Issue(old(client.session), Statement(effects), client.replies)
    {
      if client == null {
        return false;
      }
      ok := client.Execute(Statement(effects));
    }

    /** No result when the caller drops the future. */
    method Commit(stop: Stop) returns (r: Option<Result<()>>)
      modifies this, client
      ensures client == null && released == old(released) + (if old(client) == null then 0 else 1)
      ensures old(client) == null ==> r == Some(Err(COMPLETED))
      ensures old(client) != null ==>
        var spec := CommitSpec(old(client.session), old(client).replies, stop);
        old(client).session == spec.session && (r.None? <==> spec.result.Abandoned?) && (r.Some? && r.value.Ok? <==> spec.result.Done?)
    {
      var c := client;
      if c == null {
        return Some(Err(COMPLETED));
      }
      client, released := null, released + 1;
      var ok := c.Execute(Command.Commit);
      if stop == AtCommit {
        return None;
      }
      if ok {
        return Some(Ok(()));
      }
      var _ := c.Execute(Command.Rollback);
      if stop == AtRollback {
        return None;
      }
      r := Some(Err("commit failed"));
    }

    method Rollback() returns (r: Result<()>)
      modifies this, client
      ensures client == null && released == old(released) + (if old(client) == null then 0 else 1)
      ensures old(client) == null ==> r == Err(COMPLETED)
      ensures old(client) != null ==>
        Executed(old(client).session, r.Ok?) == Issue(old(client.session), Command.Rollback, old(client).replies)
    {
      var c := client;
      if c == null {
        return Err(COMPLETED);
      }
      client, released := null, released + 1;
      var ok := c.Execute(Command.Rollback);
      r := if ok then Ok(()) else Err("rollback failed");
    }

    /** Runs when the owner goes out of scope; the rollback needs a runtime to be spawned on. */
    method Drop(hasRuntime: bool)
      modifies this, client
      ensures client == null && released == old(released) + (if old(client) == null then 0 else 1)
      ensures old(client) != null ==> old(client).session == DropSpec(old(client.session), old(client).replies, hasRuntime)
    {
      var c := client;
      if c == null {
        return;
      }
      client, released := null, released + 1;
      if hasRuntime {
        var _ := c.Execute(Command.Rollback);
      }
    }
  }

  /** What a callback comes to when no statement can be sent. */
  function RunCompleted<T>(f: Callback<T>): Option<Result<T>>
    decreases f
  {
    match f
    case Return(result) => Some(result)
    case Gone => None
    case Do(_, _, onErr) => RunCompleted(onErr)
  }

  /** Runs the callback's statements on the client the unit of work owns, if it still does. */
  method RunOn<T>(uow: PgUnitOfWork, f: Callback<T>) returns (r: Option<Result<T>>)
    modifies uow.client
    ensures uow.client != null ==> Ran(uow.client.session, r) == RunCallback(old(uow.client.session), f, uow.client.replies)
    ensures uow.client == null ==> r == RunCompleted(f)
    decreases f
  {
    match f
    case Return(result) => r := Some(result);
    case Gone => r := None;
    case Do(effects, onOk, onErr) =>
      var ok := uow.Execute(effects);
      if ok {
        r := RunOn(uow, onOk);
      } else {
        r := RunOn(uow, onErr);
      }
  }

  /** `DBExt::transaction`; `pooled` is null when the pool has no client to give. */
  method Transaction<T>(pooled: PgClient?, f: Callback<T>, stop: Stop, hasRuntime: bool) returns (r: TxResult<T>, ghost released: nat)
    modifies pooled
    ensures pooled == null ==> r == Failed(NoClient) && released == 0
    ensures pooled != null ==>
      && TxRun(pooled.session, r) == TransactionSpec(old(pooled.session), f, pooled.replies, stop, hasRuntime)
      && released == if stop == AtBegin || r == Failed(NotBegun) then 0 else 1
  {
    if pooled == null {
      return Failed(NoClient), 0;
    }
    var begun := pooled.Execute(Begin);
    if stop == AtBegin {
      return Abandoned, 0;
    }
    if !begun {
      return Failed(NotBegun), 0;
    }
    var uow := new PgUnitOfWork(pooled);
    var result := RunOn(uow, f);
    match result {
      case None => r := Abandoned;
      case Some(Ok(value)) =>
        var committed := uow.Commit(stop);
        r := match committed case None => Abandoned case Some(Ok(_)) => Done(value) case Some(Err(_)) => Failed(CommitFailed);
      case Some(Err(error)) =>
        var _ := uow.Rollback();
        r := if stop == AtRollback then Abandoned else Failed(CallbackFailed(error));
    }
    uow.Drop(hasRuntime);
    released := uow.released;
  }

  // ---- What a transaction guarantees -----------------------------------------------------------

  /** Inside a transaction (or after the connection is gone) no statement reaches the database. */
  ghost predicate Inside(s: Session) {
    s.broken || s.tx != Idle
  }

  predicate OnlyStatements(cs: seq<Command>) {
    forall i :: 0 <= i < |cs| ==> cs[i].Statement?
  }

  /** Effects of the statements the server carried out, in order. */
  ghost function CarriedOut<T>(s: Session, f: Callback<T>, replies: nat -> Reply): seq<Effect>
    decreases f
  {
    match f
    case Do(effects, onOk, onErr) =>
      var e := Issue(s, Statement(effects), replies);
      (if e.ok then effects else []) + CarriedOut(e.session, if e.ok then onOk else onErr, replies)
    case _ => []
  }

  /** No statement of this run failed. */
  ghost predicate AllSucceed<T>(s: Session, f: Callback<T>, replies: nat -> Reply)
    decreases f
  {
    match f
    case Do(effects, onOk, onErr) =>
      var e := Issue(s, Statement(effects), replies);
      e.ok && AllSucceed(e.session, onOk, replies)
    case _ => true
  }

  lemma StatementStaysInside(s: Session, effects: seq<Effect>, replies: nat -> Reply)
    requires Inside(s)
    ensures var e := Issue(s, Statement(effects), replies).session;
            Inside(e) && e.committed == s.committed && e.trace == s.trace + [Statement(effects)]
  {
  }

  lemma {:induction false} CallbackStaysInside<T>(s: Session, f: Callback<T>, replies: nat -> Reply)
    requires Inside(s)
    ensures var r := RunCallback(s, f, replies).session;
            && Inside(r) && r.committed == s.committed
            && s.trace <= r.trace && OnlyStatements(r.trace[|s.trace|..])
    decreases f
  {
    hide Issue, Inside;
    if f.Do? {
      StatementStaysInside(s, f.effects, replies);
      var e := Issue(s, Statement(f.effects), replies);
      CallbackStaysInside(e.session, if e.ok then f.onOk else f.onErr, replies);
      var r := RunCallback(s, f, replies).session;
      assert r.trace[|s.trace|..] == [r.trace[|s.trace|]] + r.trace[|e.session.trace|..];
    }
  }

  /** While the transaction is open it stages exactly the effects carried out so far. */
  lemma {:induction false} CallbackStages<T>(s: Session, f: Callback<T>, replies: nat -> Reply)
    requires s.tx == Open && !s.broken
    ensures var r := RunCallback(s, f, replies).session;
            && (r.tx == Open && !r.broken ==> r.staged == s.staged + CarriedOut(s, f, replies))
            && (AllSucceed(s, f, replies) <==> r.tx == Open && !r.broken)
    decreases f
  {
    if f.Do? {
      var e := Issue(s, Statement(f.effects), replies);
      if e.ok {
        CallbackStages(e.session, f.onOk, replies);
        assert s.staged + f.effects + CarriedOut(e.session, f.onOk, replies)
            == s.staged + (f.effects + CarriedOut(e.session, f.onOk, replies));
      } else {
        StaysPoisoned(e.session, f.onErr, replies);
      }
    }
  }

  lemma {:induction false} StaysPoisoned<T>(s: Session, f: Callback<T>, replies: nat -> Reply)
    requires s.broken || s.tx == Aborted
    ensures var r := RunCallback(s, f, replies).session; r.broken || r.tx == Aborted
    decreases f
  {
    if f.Do? {
      var e := Issue(s, Statement(f.effects), replies);
      StaysPoisoned(e.session, f.onErr, replies);
    }
  }

  /** A callback that propagates every failure and returns a value has had no failure. */
  lemma {:induction false} OkMeansAllSucceed<T>(s: Session, f: Callback<T>, replies: nat -> Reply)
    requires Propagates(f) && ReturnsValue(s, f, replies)
    ensures AllSucceed(s, f, replies)
    decreases f
  {
    if f.Do? {
      var e := Issue(s, Statement(f.effects), replies);
      assert !ReturnsValue(e.session, f.onErr, replies);
      if e.ok { OkMeansAllSucceed(e.session, f.onOk, replies); }
    }
  }

  /** The callback ends with a value rather than an error or nothing. */
  predicate ReturnsValue<T>(s: Session, f: Callback<T>, replies: nat -> Reply) {
    var r := RunCallback(s, f, replies).result;
    r.Some? && r.value.Ok?
  }

  /** A cut callback that still returns has run exactly like the whole one. */
  lemma {:induction false} CutRunsAlike<T>(s: Session, f: Callback<T>, n: nat, replies: nat -> Reply)
    requires RunCallback(s, Cut(f, n), replies).result.Some?
    ensures RunCallback(s, Cut(f, n), replies) == RunCallback(s, f, replies)
    ensures CarriedOut(s, Cut(f, n), replies) == CarriedOut(s, f, replies)
    ensures AllSucceed(s, Cut(f, n), replies) <==> AllSucceed(s, f, replies)
    decreases f
  {
    if f.Do? {
      var e := Issue(s, Statement(f.effects), replies);
      CutRunsAlike(e.session, if e.ok then f.onOk else f.onErr, n - 1, replies);
    }
  }

  lemma {:induction false} CutPropagates<T>(f: Callback<T>, n: nat)
    requires Propagates(f)
    ensures Propagates(Cut(f, n))
    decreases f
  {
    if n > 0 && f.Do? { CutPropagates(f.onOk, n - 1); }
  }

  /** The session in which the callback starts. */
  function Begun(s: Session, replies: nat -> Reply): Session {
    Issue(s, Begin, replies).session
  }

  /** What a session that was handed out inside a transaction brings along. */
  function Leftover(s: Session): seq<Effect> {
    if s.tx == Open then s.staged else []
  }

  lemma BegunIsOpen(s: Session, replies: nat -> Reply)
    requires Issue(s, Begin, replies).ok
    ensures var b := Begun(s, replies);
            b.tx == Open && !b.broken && b.staged == Leftover(s) && b.committed == s.committed && b.trace == s.trace + [Begin]
  {
  }

  lemma BeginCommitsNothing(s: Session, replies: nat -> Reply)
    ensures Begun(s, replies).committed == s.committed && Begun(s, replies).trace == s.trace + [Begin]
  {
  }

  /**
   All or nothing, for every callback, every failing command, every point of abandonment and every
   session the pool may hand out: the database ends with no effect of the transaction, or with the
   effects of all statements of a callback in which none failed, after what the session brought along.
   */
  lemma {:induction false} AllOrNothing<T>(s: Session, f: Callback<T>, replies: nat -> Reply, stop: Stop, hasRuntime: bool)
    ensures var t := TransactionSpec(s, f, replies, stop, hasRuntime).session;
            || t.committed == s.committed
            || (AllSucceed(Begun(s, replies), f, replies) && ReturnsValue(Begun(s, replies), f, replies)
                && t.committed == s.committed + (Leftover(s) + CarriedOut(Begun(s, replies), f, replies)))
  {
    hide RunCallback, CarriedOut, AllSucceed;
    BeginCommitsNothing(s, replies);
    if Issue(s, Begin, replies).ok && stop != AtBegin {
      BegunIsOpen(s, replies);
      CallbackStaysInside(Begun(s, replies), f, replies);
      CallbackStages(Begun(s, replies), f, replies);
    }
  }

  /**
   `Ok` means the commit command was issued once, as the last command, and succeeded; if no statement
   failed, everything is durable, and otherwise nothing is.
   */
  lemma {:induction false} DoneMeansCommitted<T>(s: Session, f: Callback<T>, replies: nat -> Reply, stop: Stop, hasRuntime: bool)
    requires TransactionSpec(s, f, replies, stop, hasRuntime).result.Done?
    ensures var t, b := TransactionSpec(s, f, replies, stop, hasRuntime).session, Begun(s, replies);
            && t.trace == RunCallback(b, f, replies).session.trace + [Commit]
            && s.trace <= RunCallback(b, f, replies).session.trace
            && Commit !in RunCallback(b, f, replies).session.trace[|s.trace|..]
            && t.committed == s.committed + if AllSucceed(b, f, replies) then Leftover(s) + CarriedOut(b, f, replies) else []
  {
    hide RunCallback, CarriedOut, AllSucceed;
    BegunIsOpen(s, replies);
    var b := Begun(s, replies);
    var r := RunCallback(b, f, replies).session;
    CallbackStaysInside(b, f, replies);
    CallbackStages(b, f, replies);
    assert r.trace[|s.trace|..] == [Begin] + r.trace[|b.trace|..] by {
      assert r.trace[|s.trace|] == b.trace[|s.trace|] == Begin;
    }
  }

  /** With a callback that propagates failures, `Ok` means every effect is durable. */
  lemma {:induction false} DoneMeansDurable<T>(s: Session, f: Callback<T>, replies: nat -> Reply, stop: Stop, hasRuntime: bool)
    requires Propagates(f) && TransactionSpec(s, f, replies, stop, hasRuntime).result.Done?
    ensures TransactionSpec(s, f, replies, stop, hasRuntime).session.committed
         == s.committed + (Leftover(s) + CarriedOut(Begun(s, replies), f, replies))
  {
    hide RunCallback, CarriedOut, AllSucceed, Propagates;
    DoneMeansCommitted(s, f, replies, stop, hasRuntime);
    OkMeansAllSucceed(Begun(s, replies), f, replies);
  }

  /** A callback that swallows an error gets `Ok` although nothing is committed. */
  lemma SwallowedErrorWitness()
    ensures var s, f := Session([], [], Idle, false, []), Do(["x"], Return(Ok(0)), Return(Ok(0)));
            var t := TransactionSpec(s, f, n => if n == 1 then Refused else Accepted, Never, true);
            t.result == Done(0) && t.session.committed == []
  {
  }

  /** A callback error is returned as it is, no commit is ever issued, and nothing is committed. */
  lemma {:induction false} CallbackErrorRollsBack<T>(s: Session, f: Callback<T>, replies: nat -> Reply, hasRuntime: bool)
    requires Issue(s, Begin, replies).ok
    requires RunCallback(Begun(s, replies), f, replies).result.Some? && RunCallback(Begun(s, replies), f, replies).result.value.Err?
    ensures var t := TransactionSpec(s, f, replies, Never, hasRuntime);
            && t.result == Failed(CallbackFailed(RunCallback(Begun(s, replies), f, replies).result.value.error))
            && t.session.committed == s.committed
            && s.trace <= t.session.trace && Commit !in t.session.trace[|s.trace|..]
            && t.session.trace[|t.session.trace| - 1] == Rollback
  {
    hide RunCallback;
    BegunIsOpen(s, replies);
    var b := Begun(s, replies);
    var r := RunCallback(b, f, replies).session;
    CallbackStaysInside(b, f, replies);
    var t := TransactionSpec(s, f, replies, Never, hasRuntime).session;
    assert t.trace == r.trace + [Rollback];
    assert t.trace[|s.trace|..] == [Begin] + r.trace[|b.trace|..] + [Rollback];
  }

  /** A transaction abandoned before its callback returns a value never issues a commit and commits nothing. */
  lemma {:induction false} AbandonedCommitsNothing<T>(s: Session, f: Callback<T>, replies: nat -> Reply, stop: Stop, hasRuntime: bool)
    requires stop == AtBegin || !Issue(s, Begin, replies).ok || !ReturnsValue(Begun(s, replies), f, replies)
    ensures var t := TransactionSpec(s, f, replies, stop, hasRuntime).session;
            t.committed == s.committed && s.trace <= t.trace && Commit !in t.trace[|s.trace|..]
  {
    hide RunCallback;
    BeginCommitsNothing(s, replies);
    var t, b := TransactionSpec(s, f, replies, stop, hasRuntime).session, Begun(s, replies);
    if stop == AtBegin || !Issue(s, Begin, replies).ok {
      assert t.trace[|s.trace|..] == [Begin];
    } else {
      BegunIsOpen(s, replies);
      CallbackStaysInside(b, f, replies);
      var r := RunCallback(b, f, replies).session;
      var tail := if RunCallback(b, f, replies).result.None? && !hasRuntime then [] else [Rollback];
      assert t.trace == r.trace + tail;
      assert t.trace[|s.trace|..] == [Begin] + r.trace[|b.trace|..] + tail;
    }
  }

  /** A failed commit that is not abandoned is followed by one rollback attempt. */
  lemma {:induction false} FailedCommitRollsBack<T>(s: Session, f: Callback<T>, replies: nat -> Reply, stop: Stop, hasRuntime: bool)
    requires TransactionSpec(s, f, replies, stop, hasRuntime).result == Failed(CommitFailed)
    ensures TransactionSpec(s, f, replies, stop, hasRuntime).session.trace
         == RunCallback(Begun(s, replies), f, replies).session.trace + [Commit, Rollback]
  {
    hide RunCallback;
    var r := RunCallback(Begun(s, replies), f, replies).session;
    assert r.trace + [Commit] + [Rollback] == r.trace + [Commit, Rollback];
  }

  // ---- When a transaction succeeds -----------------------------------------------------------------

  predicate AllAccepted(replies: nat -> Reply, first: nat, n: nat) {
    forall i :: first <= i < first + n ==> replies(i) == Accepted
  }

  /** Exact condition for success, from the server's replies and the callback's result. */
  lemma {:induction false} DoneIff<T>(s: Session, f: Callback<T>, replies: nat -> Reply, stop: Stop, hasRuntime: bool)
    ensures var r := RunCallback(Begun(s, replies), f, replies);
            TransactionSpec(s, f, replies, stop, hasRuntime).result.Done? <==>
            && !s.broken && s.tx != Aborted && replies(|s.trace|) == Accepted && stop != AtBegin
            && ReturnsValue(Begun(s, replies), f, replies)
            && stop != AtCommit && !r.session.broken && replies(|r.session.trace|) == Accepted
  {
    hide RunCallback;
  }

  /** `n` statements one after the other, each of which has to succeed, and then a value. */
  predicate IsChain<T>(f: Callback<T>, n: nat) {
    match f
    case Return(result) => n == 0 && result.Ok?
    case Gone => false
    case Do(_, onOk, onErr) => n > 0 && IsChain(onOk, n - 1) && onErr.Return? && onErr.result.Err?
  }

  lemma StatementOkIff(s: Session, effects: seq<Effect>, replies: nat -> Reply)
    requires s.tx == Open && !s.broken
    ensures var e := Issue(s, Statement(effects), replies);
            && (e.ok <==> replies(|s.trace|) == Accepted)
            && (e.ok ==> e.session.tx == Open && !e.session.broken) && |e.session.trace| == |s.trace| + 1
  {
  }

  lemma {:induction false} ChainReturnsIff<T>(s: Session, f: Callback<T>, n: nat, replies: nat -> Reply)
    requires s.tx == Open && !s.broken && IsChain(f, n)
    ensures ReturnsValue(s, f, replies) <==> AllAccepted(replies, |s.trace|, n)
    ensures var r := RunCallback(s, f, replies).session;
            ReturnsValue(s, f, replies) ==> !r.broken && |r.trace| == |s.trace| + n
    decreases f
  {
    if f.Do? {
      hide Issue;
      StatementOkIff(s, f.effects, replies);
      var e := Issue(s, Statement(f.effects), replies);
      assert !ReturnsValue(e.session, f.onErr, replies);
      if e.ok { ChainReturnsIff(e.session, f.onOk, n - 1, replies); }
    }
  }

  /** A chain of `n` statements on a live session commits if and only if all its `n + 2` commands are accepted. */
  lemma {:induction false} ChainDoneIff<T>(s: Session, f: Callback<T>, n: nat, replies: nat -> Reply, hasRuntime: bool)
    requires !s.broken && s.tx != Aborted && IsChain(f, n)
    ensures TransactionSpec(s, f, replies, Never, hasRuntime).result.Done? <==> AllAccepted(replies, |s.trace|, n + 2)
  {
    hide RunCallback, ReturnsValue, IsChain, TransactionSpec;
    DoneIff(s, f, replies, Never, hasRuntime);
    if replies(|s.trace|) == Accepted {
      BegunIsOpen(s, replies);
      ChainReturnsIff(Begun(s, replies), f, n, replies);
    }
  }

  /** No branch ends with a value. */
  predicate NeverReturns<T>(f: Callback<T>) {
    match f
    case Return(result) => result.Err?
    case Gone => true
    case Do(_, onOk, onErr) => NeverReturns(onOk) && NeverReturns(onErr)
  }

  lemma {:induction false} NeverReturnsNoValue<T>(s: Session, f: Callback<T>, replies: nat -> Reply)
    requires NeverReturns(f)
    ensures !ReturnsValue(s, f, replies)
    decreases f
  {
    if f.Do? {
      hide Issue;
      var e := Issue(s, Statement(f.effects), replies);
      NeverReturnsNoValue(e.session, if e.ok then f.onOk else f.onErr, replies);
    }
  }

  // ---- What goes back to the pool -------------------------------------------------------------------

  /** A session as a new connection has it: nothing staged, no transaction open. */
  predicate Fresh(s: Session) {
    s.tx == Idle && s.staged == []
  }

  /** The pool closes a broken client and hands any other one out again. */
  predicate Reusable(s: Session) {
    s.broken || Fresh(s)
  }

  /**
   The transaction leaves a live session inside a transaction: it was abandoned while `begin` was under
   way, or its callback did not return a value and the rollback was refused or never issued.
   */
  predicate Strands<T>(s: Session, f: Callback<T>, replies: nat -> Reply, stop: Stop, hasRuntime: bool) {
    !s.broken && replies(|s.trace|) == Accepted &&
    (stop == AtBegin ||
     var r := RunCallback(Begun(s, replies), f, replies);
     && !r.session.broken && !ReturnsValue(Begun(s, replies), f, replies)
     && (replies(|r.session.trace|) == Refused || (r.result.None? && !hasRuntime)))
  }

  /** Exact condition for a client to go back to the pool as it came. */
  lemma {:induction false} GoesBackFreshIff<T>(s: Session, f: Callback<T>, replies: nat -> Reply, stop: Stop, hasRuntime: bool)
    requires Reusable(s)
    ensures Reusable(TransactionSpec(s, f, replies, stop, hasRuntime).session) <==> !Strands(s, f, replies, stop, hasRuntime)
  {
    hide RunCallback;
    if Issue(s, Begin, replies).ok && stop != AtBegin {
      BegunIsOpen(s, replies);
      CallbackStaysInside(Begun(s, replies), f, replies);
    }
  }

  datatype Job<T> = Job(callback: Callback<T>, stop: Stop, hasRuntime: bool)

  ghost function RunJob<T>(s: Session, job: Job<T>, replies: nat -> Reply): TxRun<T> {
    TransactionSpec(s, job.callback, replies, job.stop, job.hasRuntime)
  }

  /** One client serves the jobs one after the other. */
  ghost function RunJobs<T>(s: Session, jobs: seq<Job<T>>, replies: nat -> Reply): Session
    decreases |jobs|
  {
    if jobs == [] then s else RunJobs(RunJob(s, jobs[0], replies).session, jobs[1..], replies)
  }

  ghost predicate NoneStrands<T>(s: Session, jobs: seq<Job<T>>, replies: nat -> Reply)
    decreases |jobs|
  {
    jobs == [] ||
    (&& !Strands(s, jobs[0].callback, replies, jobs[0].stop, jobs[0].hasRuntime)
     && NoneStrands(RunJob(s, jobs[0], replies).session, jobs[1..], replies))
  }

  /** The job adds nothing to the database, or exactly its own effects. */
  ghost predicate JobIsAtomic<T>(s: Session, job: Job<T>, replies: nat -> Reply) {
    var t := RunJob(s, job, replies).session;
    || t.committed == s.committed
    || (AllSucceed(Begun(s, replies), job.callback, replies)
        && t.committed == s.committed + CarriedOut(Begun(s, replies), job.callback, replies))
  }

  ghost predicate EachIsAtomic<T>(s: Session, jobs: seq<Job<T>>, replies: nat -> Reply)
    decreases |jobs|
  {
    jobs == [] || (JobIsAtomic(s, jobs[0], replies) && EachIsAtomic(RunJob(s, jobs[0], replies).session, jobs[1..], replies))
  }

  lemma ReusableIsAtomic<T>(s: Session, job: Job<T>, replies: nat -> Reply)
    requires Reusable(s)
    ensures JobIsAtomic(s, job, replies)
  {
    hide TransactionSpec, CarriedOut, AllSucceed, Issue, ReturnsValue;
    AllOrNothing(s, job.callback, replies, job.stop, job.hasRuntime);
    var own := CarriedOut(Begun(s, replies), job.callback, replies);
    if s.broken {
      BrokenCommitsNothing(s, job, replies);
    } else {
      assert Leftover(s) + own == own;
    }
  }

  lemma BrokenCommitsNothing<T>(s: Session, job: Job<T>, replies: nat -> Reply)
    requires s.broken
    ensures RunJob(s, job, replies).session.committed == s.committed
  {
  }

  /** All or nothing over any sequence of transactions on one client, as long as none is stranded. */
  lemma {:induction false} SequenceIsAtomic<T>(s: Session, jobs: seq<Job<T>>, replies: nat -> Reply)
    requires Reusable(s) && NoneStrands(s, jobs, replies)
    ensures EachIsAtomic(s, jobs, replies) && Reusable(RunJobs(s, jobs, replies))
    decreases |jobs|
  {
    hide TransactionSpec, Strands, JobIsAtomic;
    if jobs != [] {
      ReusableIsAtomic(s, jobs[0], replies);
      GoesBackFreshIff(s, jobs[0].callback, replies, jobs[0].stop, jobs[0].hasRuntime);
      SequenceIsAtomic(RunJob(s, jobs[0], replies).session, jobs[1..], replies);
    }
  }

  /**
   What a stranded session staged is committed by the next transaction on it that succeeds, whatever
   that transaction does itself.
   */
  lemma {:induction false} StrandedEffectsLeak<T>(s: Session, job: Job<T>, replies: nat -> Reply)
    requires !s.broken && s.tx == Open && RunJob(s, job, replies).result.Done?
    requires AllSucceed(Begun(s, replies), job.callback, replies)
    ensures RunJob(s, job, replies).session.committed
         == s.committed + (s.staged + CarriedOut(Begun(s, replies), job.callback, replies))
  {
    hide TransactionSpec, CarriedOut, AllSucceed, RunCallback;
    DoneMeansCommitted(s, job.callback, replies, job.stop, job.hasRuntime);
  }

  /** A transaction abandoned without a runtime has its effect committed by the next one on the same client. */
  lemma StrandedWitness()
    ensures var s := Session([], [], Idle, false, []);
            var t := RunJob(s, Job(Cut(Do(["x"], Return(Ok(0)), Return(Err("e"))), 1), Never, false), _ => Accepted);
            var u := RunJob(t.session, Job(Do(["y"], Return(Ok(0)), Return(Err("e"))), Never, true), _ => Accepted);
            t.result == Abandoned && u.result == Done(0) && u.session.committed == ["x", "y"]
  {
  }
}
