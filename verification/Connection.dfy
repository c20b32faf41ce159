/**
 The pipelined connection loop. `Receive` says on values what one read does to a connection;
 `Connection.OnRead` is the loop body that drains, answers and flushes.
 */
module Connection {
  import opened ByteStrings
  import opened RespTypes
  import opened RespParser
  import opened Commands
  import opened Dispatcher
  import D = Database

  const MAX_PIPELINE_DEPTH: nat := 1000

  /** A reply: a value, an error for a frame, or an error for bytes that are no frame. */
  datatype Answer = Answered(value: RespType) | Refused(msg: Bytes) | Malformed(msg: Bytes)

  function AnswerValue(a: Answer): RespType {
    if a.Answered? then a.value else SimpleError(a.msg)
  }

  /** The bytes of a list of answers. */
  function AnswersWire(answers: seq<Answer>): Bytes {
    if answers == [] then []
    else AnswersWire(answers[..|answers| - 1]) + Wire(AnswerValue(answers[|answers| - 1]))
  }

  datatype Served = Served(session: Session, answer: Answer) | Died

  /** One frame: extraction reads the clock once, then the command is dispatched. `Died` is a panic. */
  ghost function ServeFrame(st: Session, frame: RespType, clock: Clock): (r: Served)
    requires TxValid(st.tx)
    ensures r.Served? ==> TxValid(r.session.tx) && !r.answer.Malformed?
  {
    var next := st.(tick := st.tick + 1);
    match ExtractCommand(frame, clock(st.tick))
    case Crash => Died
    case Bad(msg) => Served(next, Refused(msg))
    case Cmd(c) =>
      var d := Dispatch(next, c, clock);
      Served(d.0, match d.1 case Success(v) => Answered(v) case Failure(e) => Refused(e))
  }

  /** Unparsed bytes, the session, the frames consumed, the answers given, and whether the task still runs. */
  datatype Conn = Conn(buf: Bytes, session: Session, frames: seq<RespType>, answers: seq<Answer>, alive: bool)

  ghost function Consume(c: Conn, frame: RespType, rest: Bytes, clock: Clock): (r: Conn)
    requires TxValid(c.session.tx)
    ensures TxValid(r.session.tx) && |r.buf| <= |rest|
  {
    var frames := c.frames + [frame];
    match ServeFrame(c.session, frame, clock)
    case Died => Conn([], c.session, frames, c.answers, false)
    case Served(session, answer) => Conn(rest, session, frames, c.answers + [answer], c.alive)
  }

  /** The connection after every complete frame of its buffer was consumed; malformed bytes discard the whole buffer. */
  ghost function Drain(c: Conn, clock: Clock): (r: Conn)
    requires TxValid(c.session.tx)
    ensures TxValid(r.session.tx)
    decreases |c.buf|
  {
    if !c.alive || c.buf == [] then c
    else
      match Parse(c.buf)
      case Ok(v, n) => Drain(Consume(c, v, c.buf[n..], clock), clock)
      case Incomplete => c
      case Invalid(msg) => c.(buf := [], answers := c.answers + [Malformed(msg)])
      case Panic => c.(buf := [], alive := false)
  }

  /** One read. */
  ghost function Receive(c: Conn, chunk: Bytes, clock: Clock): (r: Conn)
    requires TxValid(c.session.tx)
    ensures TxValid(r.session.tx)
  {
    if c.alive then Drain(c.(buf := c.buf + chunk), clock) else c
  }

  ghost function ReceiveAll(c: Conn, chunks: seq<Bytes>, clock: Clock): (r: Conn)
    requires TxValid(c.session.tx)
    ensures TxValid(r.session.tx)
  {
    if chunks == [] then c
    else Receive(ReceiveAll(c, chunks[..|chunks| - 1], clock), chunks[|chunks| - 1], clock)
  }

  // ---- What is written between two deliveries ----

  /** The writer's history: an answer was written, or the buffer was found or made empty. */
  datatype Mark = Wrote(answer: Answer) | Delivered

  function WrittenAnswers(log: seq<Mark>): seq<Answer> {
    if log == [] then []
    else
      var n := |log| - 1;
      WrittenAnswers(log[..n]) + if log[n].Wrote? then [log[n].answer] else []
  }

  /** Non-error replies since the last delivery. */
  function OkSince(log: seq<Mark>): nat {
    if log == [] then 0
    else
      var n := |log| - 1;
      if log[n].Delivered? then 0
      else OkSince(log[..n]) + if log[n].answer.Answered? then 1 else 0
  }

  ghost predicate Paced(log: seq<Mark>) {
    forall i :: 0 <= i <= |log| ==> OkSince(log[..i]) <= MAX_PIPELINE_DEPTH
  }

  lemma LogSnoc(log: seq<Mark>, m: Mark)
    ensures OkSince(log + [m]) == if m.Delivered? then 0 else OkSince(log) + if m.answer.Answered? then 1 else 0
    ensures WrittenAnswers(log + [m]) == WrittenAnswers(log) + if m.Wrote? then [m.answer] else []
    ensures Paced(log) && OkSince(log + [m]) <= MAX_PIPELINE_DEPTH ==> Paced(log + [m])
  {
    var more := log + [m];
    assert more[..|log|] == log;
    if Paced(log) && OkSince(more) <= MAX_PIPELINE_DEPTH {
      forall i | 0 <= i <= |more| ensures OkSince(more[..i]) <= MAX_PIPELINE_DEPTH {
        if i <= |log| {
          assert more[..i] == log[..i];
        } else {
          assert more[..i] == more;
        }
      }
    }
  }

  /** A reply as the client sees it: a value, or a minus, the message and a line end. */
  function ReplyBytes(a: Answer): Bytes {
    match a
    case Answered(v) => Wire(v)
    case Refused(msg) => [45] + msg + CRLF
    case Malformed(msg) => [45] + msg + CRLF
  }

  lemma AnswersSnoc(answers: seq<Answer>, a: Answer)
    ensures AnswersWire(answers + [a]) == AnswersWire(answers) + ReplyBytes(a)
    ensures Wire(AnswerValue(a)) == ReplyBytes(a)
  {
    assert (answers + [a])[..|answers|] == answers;
  }

  // ---- Reads one after another ----

  /** What a read returns: bytes (none of them at the end of the stream), nothing yet, or a failure. */
  datatype ReadEvent = Data(bytes: Bytes) | WouldBlock | Failed

  /** The chunks the loop takes in before it ends. */
  function Chunks(input: seq<ReadEvent>): seq<Bytes> {
    if input == [] then []
    else
      match input[0]
      case Data(b) => if b == [] then [] else [b] + Chunks(input[1..])
      case WouldBlock => [[]] + Chunks(input[1..])
      case Failed => []
  }

  lemma ChunksFrom(input: seq<ReadEvent>, i: nat)
    requires i < |input|
    ensures Chunks(input[i..]) ==
      if input[i].Failed? || (input[i].Data? && input[i].bytes == []) then []
      else [if input[i].Data? then input[i].bytes else []] + Chunks(input[i + 1..])
  {
    assert input[i..][1..] == input[i + 1..];
  }

  lemma ChunksEnd(input: seq<ReadEvent>)
    ensures Chunks(input[|input|..]) == []
  {
  }

  lemma {:induction false} DeadStays(c: Conn, chunks: seq<Bytes>, clock: Clock)
    requires TxValid(c.session.tx) && !c.alive
    ensures ReceiveAll(c, chunks, clock) == c
    decreases |chunks|
  {
    hide Drain;
    if chunks != [] {
      DeadStays(c, chunks[..|chunks| - 1], clock);
    }
  }

  lemma {:induction false} ReceiveAllAppend(c: Conn, a: seq<Bytes>, b: seq<Bytes>, clock: Clock)
    requires TxValid(c.session.tx)
    ensures ReceiveAll(c, a + b, clock) == ReceiveAll(ReceiveAll(c, a, clock), b, clock)
    decreases |b|
  {
    hide Receive;
    if b == [] {
      assert a + b == a;
    } else {
      var n := |b| - 1;
      assert (a + b)[..|a| + n] == a + b[..n];
      ReceiveAllAppend(c, a, b[..n], clock);
    }
  }

  lemma ReceiveNone(c: Conn, clock: Clock)
    requires TxValid(c.session.tx)
    ensures ReceiveAll(c, [], clock) == c
  {
  }

  lemma ReceiveAllSnoc(c: Conn, chunks: seq<Bytes>, chunk: Bytes, clock: Clock)
    requires TxValid(c.session.tx)
    ensures ReceiveAll(c, chunks + [chunk], clock) == Receive(ReceiveAll(c, chunks, clock), chunk, clock)
  {
    hide Receive;
    assert (chunks + [chunk])[..|chunks|] == chunks;
  }

  lemma DrainStops(c: Conn, clock: Clock)
    requires TxValid(c.session.tx) && (!c.alive || c.buf == [])
    ensures Drain(c, clock) == c
  {
  }

  lemma DrainStep(c: Conn, clock: Clock)
    requires TxValid(c.session.tx) && c.alive && c.buf != []
    ensures Drain(c, clock) ==
      match Parse(c.buf)
      case Ok(v, n) => Drain(Consume(c, v, c.buf[n..], clock), clock)
      case Incomplete => c
      case Invalid(msg) => c.(buf := [], answers := c.answers + [Malformed(msg)])
      case Panic => c.(buf := [], alive := false)
  {
    hide Parse, Consume;
  }

  // ---- The implementation ----

  class Connection {
    var buf: Bytes
    var tick: nat
    var alive: bool
    const client: Client
    const db: D.DB
    const writer: BufWriter
    ghost var frames: seq<RespType>
    ghost var log: seq<Mark>

    constructor (db: D.DB)
      ensures Valid() && alive && fresh(client) && fresh(writer) && this.db == db
      ensures State() == Conn([], Session(IDLE, db.State(), 0), [], [], true)
    {
      buf, tick, alive := [], 0, true;
      client := new Client();
      writer := new BufWriter();
      this.db := db;
      frames, log := [], [];
    }

    ghost function State(): Conn
      reads this, client, db
    {
      Conn(buf, Session(client.State(), db.State(), tick), frames, WrittenAnswers(log), alive)
    }

    /** Every answer is on its way; while the task runs none is held back, and deliveries were frequent enough. */
    ghost predicate Valid()
      reads this, client, db, writer
    {
      && TxValid(client.State())
      && writer.Written() == AnswersWire(WrittenAnswers(log))
      && Paced(log)
      && (alive ==> writer.pending == [] && OkSince(log) == 0)
    }

    /** Writes one reply. */
    method Write(a: Answer)
      requires writer.Written() == AnswersWire(WrittenAnswers(log)) && Paced(log)
      requires OkSince(log) < MAX_PIPELINE_DEPTH
      modifies this`log, writer
      ensures log == old(log) + [Wrote(a)]
      ensures WrittenAnswers(log) == old(WrittenAnswers(log)) + [a]
      ensures writer.Written() == old(writer.Written()) + ReplyBytes(a)
      ensures writer.Written() == AnswersWire(WrittenAnswers(log)) && Paced(log)
      ensures OkSince(log) == old(OkSince(log)) + if a.Answered? then 1 else 0
    {
      hide Paced, OkSince, WrittenAnswers, AnswersWire, ReplyBytes;
      WriteTo(AnswerValue(a), writer);
      LogSnoc(log, Wrote(a));
      AnswersSnoc(WrittenAnswers(log), a);
      log := log + [Wrote(a)];
    }

    /** Flushes unless nothing is held back. */
    method Deliver(always: bool)
      requires writer.Written() == AnswersWire(WrittenAnswers(log)) && Paced(log)
      modifies this`log, writer
      ensures WrittenAnswers(log) == old(WrittenAnswers(log))
      ensures writer.Written() == AnswersWire(WrittenAnswers(log)) && Paced(log)
      ensures writer.pending == [] && OkSince(log) == 0
    {
      hide Paced, OkSince, WrittenAnswers, AnswersWire;
      if always || writer.pending != [] {
        writer.Flush();
      }
      LogSnoc(log, Delivered);
      log := log + [Delivered];
    }

    /** Extracts and dispatches one frame; no answer when the task panics. */
    method Serve(frame: RespType, clock: Clock) returns (answer: Option<Answer>)
      requires TxValid(client.State())
      modifies this`tick, client, db
      ensures match ServeFrame(old(State().session), frame, clock)
        case Died => answer.None? && State().session == old(State().session)
        case Served(session, a) => answer == Some(a) && State().session == session
    {
      hide Dispatch, ExtractCommand;
      match ExtractCommand(frame, clock(tick))
      case Crash => answer := None;
      case Bad(msg) =>
        tick := tick + 1;
        answer := Some(Refused(msg));
      case Cmd(c) =>
        var r, used := DispatchCommand(client, db, c, clock, tick + 1);
        tick := tick + 1 + used;
        answer := Some(match r case Success(v) => Answered(v) case Failure(e) => Refused(e));
    }

    /** Consumes the frame at the head of the buffer and answers it, flushing when the batch is deep. */
    method Advance(frame: RespType, consumed: nat, count: nat, clock: Clock) returns (next: nat)
      requires TxValid(client.State()) && alive && consumed <= |buf|
      requires writer.Written() == AnswersWire(WrittenAnswers(log)) && Paced(log)
      requires OkSince(log) <= count && OkSince(log) < MAX_PIPELINE_DEPTH
      modifies this, client, db, writer
      ensures State() == Consume(old(State()), frame, old(buf)[consumed..], clock)
      ensures writer.Written() == AnswersWire(WrittenAnswers(log)) && Paced(log)
      ensures alive ==> OkSince(log) <= next && OkSince(log) < MAX_PIPELINE_DEPTH
    {
      hide Paced, OkSince, WrittenAnswers, AnswersWire, ServeFrame;
      buf := buf[consumed..];
      next := count + 1;
      frames := frames + [frame];
      var answer := Serve(frame, clock);
      if answer.None? {
        buf, alive := [], false;
        return;
      }
      Write(answer.value);
      if answer.value.Answered? && next >= MAX_PIPELINE_DEPTH {
        Deliver(true);
        next := 0;
      }
    }

    /** The part of the loop of `handle` that follows a read: drain the buffer, then deliver what was written. */
    method OnRead(chunk: Bytes, clock: Clock)
      requires Valid() && alive
      modifies this, client, db, writer
      ensures Valid()
      ensures State() == Receive(old(State()), chunk, clock)
    {
      hide Drain, Parse, Consume, Paced, OkSince, WrittenAnswers, AnswersWire;
      buf := buf + chunk;
      ghost var goal := Drain(State(), clock);
      var count, progress, more := 0, false, true;
      while more && buf != []
        invariant alive && TxValid(client.State())
        invariant Drain(State(), clock) == goal && (!more ==> State() == goal)
        invariant writer.Written() == AnswersWire(WrittenAnswers(log)) && Paced(log)
        invariant OkSince(log) <= count && OkSince(log) < MAX_PIPELINE_DEPTH
        invariant !progress ==> writer.pending == [] && OkSince(log) == 0
        decreases more, |buf|
      {
        DrainStep(State(), clock);
        var r := ParseFrame(buf);
        match r {
          case Ok(frame, consumed) =>
            progress := true;
            count := Advance(frame, consumed, count, clock);
            if !alive {
              DrainStops(State(), clock);
              return;
            }
          case Incomplete =>
            more := false;
          case Invalid(msg) =>
            Write(Malformed(msg));
            Deliver(true);
            buf := [];
            DrainStops(State(), clock);
            more := false;
          case Panic =>
            buf, alive := [], false;
            return;
        }
      }
      if buf == [] {
        DrainStops(State(), clock);
      }
      if progress {
        Deliver(false);
      }
    }

    /** `handle` after the socket was set up: reads until the stream ends, then a last flush. */
    method Handle(input: seq<ReadEvent>, clock: Clock)
      requires Valid() && alive
      modifies this, client, db, writer
      ensures Valid()
      ensures State() == ReceiveAll(old(State()), Chunks(input), clock)
    {
      hide Receive, ReceiveAll, Chunks, Paced, OkSince, WrittenAnswers, AnswersWire;
      ghost var start, taken: seq<Bytes> := State(), [];
      ReceiveNone(start, clock);
      assert input[0..] == input && [] + Chunks(input) == Chunks(input);
      var i, more := 0, true;
      while more && i < |input|
        invariant 0 <= i <= |input| && Valid() && alive
        invariant Chunks(input) == taken + (if more then Chunks(input[i..]) else [])
        invariant State() == ReceiveAll(start, taken, clock)
        decreases more, |input| - i
      {
        ChunksFrom(input, i);
        if input[i].Failed? || (input[i].Data? && input[i].bytes == []) {
          more := false;
        } else {
          var chunk := if input[i].Data? then input[i].bytes else [];
          ReceiveAllSnoc(start, taken, chunk, clock);
          OnRead(chunk, clock);
          assert taken + ([chunk] + Chunks(input[i + 1..])) == taken + [chunk] + Chunks(input[i + 1..]);
          taken := taken + [chunk];
          if !alive {
            ReceiveAllAppend(start, taken, Chunks(input[i + 1..]), clock);
            DeadStays(State(), Chunks(input[i + 1..]), clock);
            return;
          }
          i := i + 1;
        }
      }
      ChunksEnd(input);
      assert taken + [] == taken;
      writer.Flush();
    }
  }
}
