/** Dispatch of commands, with the MULTI/EXEC/DISCARD state of a client. */
module Dispatcher {
  import opened ByteStrings
  import opened RespTypes
  import opened Commands
  import D = Database
  import S = Store

  /** Readings of a clock; `clock(i)` is the reading the i-th executed command gets. */
  type Clock = nat -> S.Instant

  /** Commands that act on the transaction itself. */
  predicate IsControl(c: Command) {
    c.MULTI? || c.EXEC? || c.DISCARD?
  }

  function Strings(vals: seq<Bytes>): (r: seq<S.RedisObject>)
    ensures |r| == |vals|
    ensures forall i :: 0 <= i < |r| ==> r[i] == S.Str(vals[i])
  {
    seq(|vals|, i requires 0 <= i < |vals| => S.Str(vals[i]))
  }

  datatype KeyOp = NoOp | KeyOp(key: S.Key, op: S.Op)

  /** The store operation a command performs. */
  function StoreOp(c: Command): KeyOp {
    match c
    case SET(k, v, e) => KeyOp(k, S.Set(S.Str(v), e))
    case GET(k) => KeyOp(k, S.Get)
    case DELETE(k) => KeyOp(k, S.Delete)
    case LPUSH(k, vs) => KeyOp(k, S.LPush(Strings(vs)))
    case RPUSH(k, vs) => KeyOp(k, S.RPush(Strings(vs)))
    case LRANGE(k, a, z) => KeyOp(k, S.LRange(a, z))
    case EXPIRE(k, at, o) => KeyOp(k, S.Expire(at, o))
    case _ => NoOp
  }

  /** The strings among the items of a list, as bulk strings. */
  function BulkItems(list: seq<S.RedisObject>): seq<RespType> {
    if list == [] then []
    else (if list[0].Str? then [BulkString(list[0].s)] else []) + BulkItems(list[1..])
  }

  const FAILED: Bytes := Ascii("Failed to execute command. E: ")
  const QUEUE_FAILED: Bytes := Ascii("Failed to execute queued commands. E: ")
  const GET_TYPE: Bytes := Ascii("Wrong data type. Expected String, got List.")
  const NO_NESTING: Bytes := Ascii("Can not nest multi")

  /** The reply to a command whose store operation had the given outcome. */
  function Reply(c: Command, out: S.Outcome): Result<RespType> {
    match out
    case Err(e) => Failure(FAILED + e)
    case Done => Success(if c.DELETE? then BulkString(OK) else SimpleString(OK))
    case Value(Str(s)) => Success(BulkString(s))
    case Value(List(l)) => if c.LRANGE? then Success(Array(BulkItems(l))) else Failure(GET_TYPE)
  }

  /** A command outside the transaction machinery. */
  function ExecCommand(s: S.Store, c: Command, now: S.Instant): (S.Store, Result<RespType>)
    requires !IsControl(c)
  {
    match StoreOp(c)
    case KeyOp(k, op) => var r := S.Exec(s, k, op, now); (r.0, Reply(c, r.1))
    case NoOp =>
      (s, Success(if c.ECHO? then BulkString(c.msg) else if c.SAVE? then SimpleString(OK) else SimpleString(PONG)))
  }

  ghost predicate Plain(cmds: seq<Command>) {
    forall i :: 0 <= i < |cmds| ==> !IsControl(cmds[i])
  }

  /** Commands run in order up to the first failing one; `executed` counts the clock readings. */
  datatype Batch = Batch(store: S.Store, replies: seq<RespType>, error: Option<Bytes>, executed: nat)

  ghost function RunAll(s: S.Store, cmds: seq<Command>, clock: Clock, tick: nat): Batch
    requires Plain(cmds)
    decreases |cmds|
  {
    if cmds == [] then Batch(s, [], None, 0)
    else
      var n := |cmds| - 1;
      var b := RunAll(s, cmds[..n], clock, tick);
      if b.error.Some? then b
      else
        var r := ExecCommand(b.store, cmds[n], clock(tick + b.executed));
        match r.1
        case Success(v) => Batch(r.0, b.replies + [v], None, b.executed + 1)
        case Failure(e) => Batch(r.0, b.replies, Some(e), b.executed + 1)
  }

  datatype Tx = Tx(inTransaction: bool, queue: seq<Command>)

  const IDLE: Tx := Tx(false, [])

  /** What holds of a client in every reachable state. */
  ghost predicate TxValid(tx: Tx) {
    Plain(tx.queue) && (!tx.inTransaction ==> tx.queue == [])
  }

  datatype Session = Session(tx: Tx, store: S.Store, tick: nat)

  /** `execute_command` on values. */
  ghost function Execute(st: Session, c: Command, clock: Clock): (Session, Result<RespType>)
    requires TxValid(st.tx)
  {
    match c
    case MULTI => (st.(tx := Tx(true, [])), Success(SimpleString(OK)))
    case DISCARD => (st.(tx := IDLE), Success(SimpleString(OK)))
    case EXEC =>
      var b := RunAll(st.store, st.tx.queue, clock, st.tick);
      (match b.error
       case None => (Session(IDLE, b.store, st.tick + b.executed), Success(Array(b.replies)))
       case Some(e) => (Session(st.tx, b.store, st.tick + b.executed), Failure(QUEUE_FAILED + e)))
    case _ =>
      var r := ExecCommand(st.store, c, clock(st.tick));
      (Session(st.tx, r.0, st.tick + 1), r.1)
  }

  /** `dispatch` on values. */
  ghost function Dispatch(st: Session, c: Command, clock: Clock): (r: (Session, Result<RespType>))
    requires TxValid(st.tx)
    ensures TxValid(r.0.tx)
  {
    if st.tx.inTransaction then
      if c.MULTI? then (st, Failure(NO_NESTING))
      else if c.EXEC? || c.DISCARD? then Execute(st, c, clock)
      else (st.(tx := Tx(true, st.tx.queue + [c])), Success(SimpleString(QUEUED)))
    else Execute(st, c, clock)
  }

  lemma {:induction false} RunAllExecuted(s: S.Store, cmds: seq<Command>, clock: Clock, tick: nat)
    requires Plain(cmds)
    ensures var b := RunAll(s, cmds, clock, tick);
            b.executed <= |cmds| && (b.error.None? ==> b.executed == |b.replies| == |cmds|)
    decreases |cmds|
  {
    if cmds != [] {
      RunAllExecuted(s, cmds[..|cmds| - 1], clock, tick);
    }
  }

  /** After a failure nothing more is run. */
  lemma {:induction false} ErrorStops(s: S.Store, cmds: seq<Command>, k: nat, clock: Clock, tick: nat)
    requires Plain(cmds) && k <= |cmds|
    requires RunAll(s, cmds[..k], clock, tick).error.Some?
    ensures RunAll(s, cmds, clock, tick) == RunAll(s, cmds[..k], clock, tick)
    decreases |cmds|
  {
    hide ExecCommand;
    if k == |cmds| {
      assert cmds[..k] == cmds;
    } else {
      var n := |cmds| - 1;
      assert cmds[..n][..k] == cmds[..k];
      ErrorStops(s, cmds[..n], k, clock, tick);
    }
  }

  // ---- The implementation ----

  class Client {
    var inTransaction: bool
    var queuedCommands: seq<Command>

    constructor ()
      ensures State() == IDLE
    {
      inTransaction, queuedCommands := false, [];
    }

    ghost function State(): Tx
      reads this
    {
      Tx(inTransaction, queuedCommands)
    }
  }

  /** A command on the database object. */
  method ExecutePlain(db: D.DB, c: Command, now: S.Instant) returns (r: Result<RespType>)
    requires !IsControl(c)
    modifies db
    ensures (db.State(), r) == ExecCommand(old(db.State()), c, now)
  {
    hide S.Exec;
    var out := S.Done;
    match c {
      case SET(k, v, e) => db.Set(k, S.Str(v), e); SetAnswers(old(db.State()), k, S.Str(v), e, now);
      case GET(k) => out := db.Get(k, now);
      case DELETE(k) => db.Delete(k); DeleteAnswers(old(db.State()), k, now);
      case LPUSH(k, vs) => out := db.LPush(k, Strings(vs)); ClockUnused(old(db.State()), k, S.LPush(Strings(vs)), now);
      case RPUSH(k, vs) => out := db.RPush(k, Strings(vs)); ClockUnused(old(db.State()), k, S.RPush(Strings(vs)), now);
      case LRANGE(k, a, z) => out := db.LRange(k, a, z, now);
      case EXPIRE(k, at, o) => out := db.Expire(k, at, o); ClockUnused(old(db.State()), k, S.Expire(at, o), now);
      case PING => return Success(SimpleString(PONG));
      case ECHO(msg) => return Success(BulkString(msg));
      case SAVE => return Success(SimpleString(OK));
    }
    return Reply(c, out);
  }

  lemma ClockUnused(s: S.Store, k: S.Key, op: S.Op, now: S.Instant)
    requires !op.Get? && !op.LRange? && !op.Purge?
    ensures S.Exec(s, k, op, now) == S.Exec(s, k, op, 0)
  {
  }

  lemma SetAnswers(s: S.Store, k: S.Key, v: S.RedisObject, e: Option<S.Instant>, now: S.Instant)
    ensures S.Exec(s, k, S.Set(v, e), now) == (S.Exec(s, k, S.Set(v, e), 0).0, S.Done)
  {
  }

  lemma DeleteAnswers(s: S.Store, k: S.Key, now: S.Instant)
    ensures S.Exec(s, k, S.Delete, now) == (S.Exec(s, k, S.Delete, 0).0, S.Done)
  {
  }

  lemma RunAllSnoc(s: S.Store, cmds: seq<Command>, i: nat, clock: Clock, tick: nat)
    requires Plain(cmds) && i < |cmds| && RunAll(s, cmds[..i], clock, tick).error.None?
    ensures RunAll(s, cmds[..i + 1], clock, tick) ==
            var b := RunAll(s, cmds[..i], clock, tick);
            var r := ExecCommand(b.store, cmds[i], clock(tick + b.executed));
            match r.1
            case Success(v) => Batch(r.0, b.replies + [v], None, b.executed + 1)
            case Failure(e) => Batch(r.0, b.replies, Some(e), b.executed + 1)
  {
    hide ExecCommand;
    assert cmds[..i + 1][..i] == cmds[..i];
  }

  /** The loop of EXEC over the queue it copied; the client's own state does not change under it. */
  method ExecuteQueued(client: Client, db: D.DB, queued: seq<Command>, clock: Clock, tick: nat)
    returns (replies: seq<RespType>, error: Option<Bytes>, used: nat)
    requires TxValid(client.State()) && Plain(queued)
    modifies client, db
    ensures client.State() == old(client.State())
    ensures Batch(db.State(), replies, error, used) == RunAll(old(db.State()), queued, clock, tick)
    decreases 1
  {
    hide ExecCommand, RunAll;
    ghost var start := db.State();
    replies, used := [], 0;
    assert RunAll(start, [], clock, tick) == Batch(start, [], None, 0) by { NothingRun(start, clock, tick); }
    for i := 0 to |queued|
      invariant client.State() == old(client.State())
      invariant RunAll(start, queued[..i], clock, tick) == Batch(db.State(), replies, None, used)
    {
      RunAllSnoc(start, queued, i, clock, tick);
      var reply, n := ExecuteCommand(client, db, queued[i], clock, tick + used);
      used := used + n;
      if reply.Failure? {
        ErrorStops(start, queued, i + 1, clock, tick);
        return replies, Some(reply.error), used;
      }
      replies := replies + [reply.value];
    }
    assert queued[..|queued|] == queued;
    error := None;
  }

  lemma NothingRun(s: S.Store, clock: Clock, tick: nat)
    ensures RunAll(s, [], clock, tick) == Batch(s, [], None, 0)
  {
  }

  /** `execute_command`. Its recursion ends because a queued command is never EXEC: the depth is at most two. */
  method ExecuteCommand(client: Client, db: D.DB, c: Command, clock: Clock, tick: nat)
    returns (r: Result<RespType>, used: nat)
    requires TxValid(client.State())
    modifies client, db
    ensures (Session(client.State(), db.State(), tick + used), r) ==
            Execute(Session(old(client.State()), old(db.State()), tick), c, clock)
    ensures !IsControl(c) ==> client.State() == old(client.State()) && used == 1
    decreases if c.EXEC? then 2 else 0
  {
    hide ExecCommand, RunAll;
    used := 0;
    match c
    case MULTI =>
      client.inTransaction, client.queuedCommands := true, [];
      r := Success(SimpleString(OK));
    case DISCARD =>
      client.inTransaction, client.queuedCommands := false, [];
      r := Success(SimpleString(OK));
    case EXEC =>
      var replies, error, n := ExecuteQueued(client, db, client.queuedCommands, clock, tick);
      used := n;
      if error.Some? {
        r := Failure(QUEUE_FAILED + error.value);
      } else {
        client.inTransaction, client.queuedCommands := false, [];
        r := Success(Array(replies));
      }
    case _ =>
      r := ExecutePlain(db, c, clock(tick));
      used := 1;
  }

  /** `dispatch`. */
  method DispatchCommand(client: Client, db: D.DB, c: Command, clock: Clock, tick: nat)
    returns (r: Result<RespType>, used: nat)
    requires TxValid(client.State())
    modifies client, db
    ensures (Session(client.State(), db.State(), tick + used), r) ==
            Dispatch(Session(old(client.State()), old(db.State()), tick), c, clock)
  {
    hide Execute;
    if client.inTransaction {
      if c.MULTI? {
        return Failure(NO_NESTING), 0;
      }
      if c.EXEC? || c.DISCARD? {
        r, used := ExecuteCommand(client, db, c, clock, tick);
        return;
      }
      client.queuedCommands := client.queuedCommands + [c];
      return Success(SimpleString(QUEUED)), 0;
    }
    r, used := ExecuteCommand(client, db, c, clock, tick);
  }
}
