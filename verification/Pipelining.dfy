/** How a stream is cut into reads does not matter, exactly as long as no malformed frame is followed by more bytes. */
module Pipelining {
  import opened ByteStrings
  import opened RespTypes
  import opened RespParser
  import opened RespProofs
  import opened Dispatcher
  import opened Connection

  /** Draining the buffer comes upon bytes that are no frame. */
  ghost predicate HitsInvalid(c: Conn, clock: Clock)
    requires TxValid(c.session.tx)
    decreases |c.buf|
  {
    c.alive && c.buf != [] &&
    match Parse(c.buf)
    case Ok(v, n) => HitsInvalid(Consume(c, v, c.buf[n..], clock), clock)
    case Invalid(_) => true
    case _ => false
  }

  lemma HitsStep(c: Conn, clock: Clock)
    requires TxValid(c.session.tx) && c.alive && c.buf != []
    ensures HitsInvalid(c, clock) ==
      match Parse(c.buf)
      case Ok(v, n) => HitsInvalid(Consume(c, v, c.buf[n..], clock), clock)
      case Invalid(_) => true
      case _ => false
  {
    hide Parse, Consume;
  }

  lemma HitsNot(c: Conn, clock: Clock)
    requires TxValid(c.session.tx) && (!c.alive || c.buf == [])
    ensures !HitsInvalid(c, clock)
  {
  }

  /** More bytes behind the buffer of a running connection. */
  function With(c: Conn, x: Bytes): Conn {
    if c.alive then c.(buf := c.buf + x) else c
  }

  /** Later bytes wait their turn: consuming a frame does not look at them. */
  lemma ConsumeLocal(c: Conn, v: RespType, n: nat, x: Bytes, clock: Clock)
    requires TxValid(c.session.tx) && c.alive && n <= |c.buf|
    ensures Consume(With(c, x), v, With(c, x).buf[n..], clock) == With(Consume(c, v, c.buf[n..], clock), x)
  {
    hide ServeFrame;
    assert (c.buf + x)[n..] == c.buf[n..] + x;
  }

  lemma ReceiveIsDrain(c: Conn, x: Bytes, clock: Clock)
    requires TxValid(c.session.tx)
    ensures Receive(c, x, clock) == Drain(With(c, x), clock)
  {
    hide Drain;
    if !c.alive {
      DrainStops(c, clock);
    }
  }

  /** Draining a buffer and then the rest of the stream is draining both at once. */
  lemma {:induction false} DrainSplit(c: Conn, x: Bytes, clock: Clock)
    requires TxValid(c.session.tx) && !HitsInvalid(c, clock)
    ensures Drain(With(c, x), clock) == Receive(Drain(c, clock), x, clock)
    decreases |c.buf|
  {
    hide Parse, Drain, Consume, HitsInvalid, Receive;
    ReceiveIsDrain(Drain(c, clock), x, clock);
    if !c.alive || c.buf == [] {
      DrainStops(c, clock);
    } else {
      DrainStep(c, clock);
      HitsStep(c, clock);
      var r := Parse(c.buf);
      if !r.Incomplete? {
        ParseStable(c.buf, x);
        DrainStep(With(c, x), clock);
        if r.Ok? {
          ConsumeLocal(c, r.value, r.consumed, x, clock);
          ConsumeShrinks(c, r.value, r.consumed, clock);
          DrainSplit(Consume(c, r.value, c.buf[r.consumed..], clock), x, clock);
        } else {
          DrainStops(c.(buf := [], alive := false), clock);
        }
      }
    }
  }

  lemma ConsumeShrinks(c: Conn, v: RespType, n: nat, clock: Clock)
    requires TxValid(c.session.tx) && 0 < n <= |c.buf|
    ensures |Consume(c, v, c.buf[n..], clock).buf| < |c.buf|
  {
    hide ServeFrame;
  }

  /** A malformed frame stays malformed whatever follows. */
  lemma {:induction false} HitsMonotone(c: Conn, x: Bytes, clock: Clock)
    requires TxValid(c.session.tx) && HitsInvalid(c, clock)
    ensures HitsInvalid(With(c, x), clock)
    decreases |c.buf|
  {
    hide Parse, Consume, HitsInvalid;
    if !c.alive || c.buf == [] {
      HitsNot(c, clock);
    } else {
      HitsStep(c, clock);
      ParseStable(c.buf, x);
      HitsStep(With(c, x), clock);
      var r := Parse(c.buf);
      if r.Ok? {
        ConsumeLocal(c, r.value, r.consumed, x, clock);
        ConsumeShrinks(c, r.value, r.consumed, clock);
        HitsMonotone(Consume(c, r.value, c.buf[r.consumed..], clock), x, clock);
      }
    }
  }

  /** Nothing left to consume. */
  ghost predicate Settled(c: Conn) {
    !c.alive || c.buf == [] || Parse(c.buf).Incomplete?
  }

  lemma SettledStays(c: Conn, clock: Clock)
    requires TxValid(c.session.tx) && Settled(c)
    ensures Drain(c, clock) == c
  {
    hide Parse, Drain, Consume;
    if !c.alive || c.buf == [] {
      DrainStops(c, clock);
    } else {
      DrainStep(c, clock);
    }
  }

  lemma {:induction false} DrainSettles(c: Conn, clock: Clock)
    requires TxValid(c.session.tx)
    ensures Settled(Drain(c, clock))
    ensures HitsInvalid(c, clock) ==> Drain(c, clock).alive && Drain(c, clock).buf == []
    decreases |c.buf|
  {
    hide Parse, Drain, Consume, HitsInvalid;
    if !c.alive || c.buf == [] {
      DrainStops(c, clock);
      HitsNot(c, clock);
    } else {
      DrainStep(c, clock);
      HitsStep(c, clock);
      var r := Parse(c.buf);
      if r.Ok? {
        ConsumeShrinks(c, r.value, r.consumed, clock);
        DrainSettles(Consume(c, r.value, c.buf[r.consumed..], clock), clock);
      }
    }
  }

  // ---- Cutting a stream into reads ----

  /** Malformed bytes are met before the last byte of the stream has arrived. */
  ghost predicate EarlyInvalid(c: Conn, stream: Bytes, clock: Clock)
    requires TxValid(c.session.tx)
  {
    stream != [] && HitsInvalid(With(c, stream[..|stream| - 1]), clock)
  }

  lemma PrefixNotInvalid(c: Conn, p: Bytes, stream: Bytes, clock: Clock)
    requires TxValid(c.session.tx) && p < stream && !EarlyInvalid(c, stream, clock)
    ensures !HitsInvalid(With(c, p), clock) && !EarlyInvalid(c, p, clock)
  {
    hide HitsInvalid;
    var most := stream[..|stream| - 1];
    assert c.buf + p + most[|p|..] == c.buf + most;
    if HitsInvalid(With(c, p), clock) {
      HitsMonotone(With(c, p), most[|p|..], clock);
    }
    if p != [] {
      assert c.buf + p[..|p| - 1] + most[|p| - 1..] == c.buf + most;
      if HitsInvalid(With(c, p[..|p| - 1]), clock) {
        HitsMonotone(With(c, p[..|p| - 1]), most[|p| - 1..], clock);
      }
    }
  }

  lemma ConcatSnoc(chunks: seq<Bytes>, l: Bytes)
    ensures Concat(chunks + [l]) == Concat(chunks) + l
  {
    ConcatAppend(chunks, [l]);
    assert Concat([l]) == l + [];
  }

  lemma ReceiveSettled(c: Conn, stream: Bytes, clock: Clock)
    requires TxValid(c.session.tx)
    ensures Receive(Receive(c, stream, clock), [], clock) == Receive(c, stream, clock)
  {
    hide Drain, Parse, Receive;
    var d := Receive(c, stream, clock);
    ReceiveIsDrain(c, stream, clock);
    DrainSettles(With(c, stream), clock);
    ReceiveIsDrain(d, [], clock);
    assert d.buf + [] == d.buf;
    SettledStays(d, clock);
  }

  /** Any cut of a stream that is not malformed early does what one read of it would do. */
  lemma {:induction false} CutsAgree(c: Conn, chunks: seq<Bytes>, clock: Clock)
    requires TxValid(c.session.tx) && Settled(c) && !EarlyInvalid(c, Concat(chunks), clock)
    ensures ReceiveAll(c, chunks, clock) == Receive(c, Concat(chunks), clock)
    decreases |chunks|
  {
    hide Drain, Parse, Receive, HitsInvalid;
    if chunks == [] {
      ReceiveIsDrain(c, [], clock);
      assert c.buf + [] == c.buf;
      SettledStays(c, clock);
    } else {
      var init, l := chunks[..|chunks| - 1], chunks[|chunks| - 1];
      var p, s := Concat(init), Concat(chunks);
      assert chunks == init + [l];
      ConcatSnoc(init, l);
      if l == [] {
        assert s == p;
        CutsAgree(c, init, clock);
        ReceiveSettled(c, p, clock);
      } else {
        PrefixNotInvalid(c, p, s, clock);
        CutsAgree(c, init, clock);
        ReceiveIsDrain(c, p, clock);
        ReceiveIsDrain(c, s, clock);
        DrainSplit(With(c, p), l, clock);
        assert c.buf + p + l == c.buf + s;
      }
    }
  }

  lemma OneByteIncomplete(z: byte)
    ensures Parse([z]).Incomplete?
  {
  }

  /**
   After malformed bytes the buffer is dropped: a byte arriving in the next read is kept, in the same read
   it is lost.
   */
  lemma CutAfterInvalid(c: Conn, stream: Bytes, clock: Clock)
    requires TxValid(c.session.tx) && c.alive && EarlyInvalid(c, stream, clock)
    ensures var n := |stream| - 1;
      ReceiveAll(c, [stream[..n], stream[n..]], clock).buf == stream[n..] && Receive(c, stream, clock).buf == []
  {
    hide Drain, Parse, Receive, HitsInvalid, ReceiveAll;
    var n := |stream| - 1;
    var p, z := stream[..n], stream[n..];
    HitsMonotone(With(c, p), z, clock);
    assert c.buf + p + z == c.buf + stream;
    DrainSettles(With(c, stream), clock);
    ReceiveIsDrain(c, stream, clock);
    DrainSettles(With(c, p), clock);
    ReceiveIsDrain(c, p, clock);
    var d := Receive(c, p, clock);
    ReceiveTwo(c, p, z, clock);
    ReceiveIsDrain(d, z, clock);
    assert z == [stream[n]] && d.buf + z == z;
    OneByteIncomplete(stream[n]);
    SettledStays(With(d, z), clock);
  }

  lemma ReceiveTwo(c: Conn, p: Bytes, z: Bytes, clock: Clock)
    requires TxValid(c.session.tx)
    ensures ReceiveAll(c, [p, z], clock) == Receive(Receive(c, p, clock), z, clock)
  {
    hide Receive;
    assert [p, z][..1] == [p] && [p][..0] == [];
    assert ReceiveAll(c, [p], clock) == Receive(c, p, clock);
  }

  /**
   Chunk independence, exactly: every way of cutting the stream into reads, empty ones included, gives the
   frames, replies, session and unconsumed tail of one single read if and only if no malformed frame is
   met before the last byte.
   */
  lemma ChunkIndependence(c: Conn, stream: Bytes, clock: Clock)
    requires TxValid(c.session.tx) && c.alive && Settled(c)
    ensures (forall chunks :: Concat(chunks) == stream ==> ReceiveAll(c, chunks, clock) == Receive(c, stream, clock))
      <==> !EarlyInvalid(c, stream, clock)
  {
    hide Receive, ReceiveAll, HitsInvalid, Settled;
    if EarlyInvalid(c, stream, clock) {
      var n := |stream| - 1;
      CutAfterInvalid(c, stream, clock);
      var cut := [stream[..n], stream[n..]];
      assert Concat(cut) == stream by {
        assert cut == [stream[..n]] + [stream[n..]];
        ConcatSnoc([stream[..n]], stream[n..]);
        ConcatSnoc([], stream[..n]);
        assert [] + [stream[..n]] == [stream[..n]];
      }
    } else {
      forall chunks | Concat(chunks) == stream ensures ReceiveAll(c, chunks, clock) == Receive(c, stream, clock) {
        CutsAgree(c, chunks, clock);
      }
    }
  }

  // ---- One answer per frame ----

  /** Frames served one after another; a frame that panics gives no answer and ends it. */
  ghost function ServeAll(st: Session, frames: seq<RespType>, clock: Clock): (r: (Session, seq<Answer>))
    requires TxValid(st.tx)
    ensures TxValid(r.0.tx)
  {
    if frames == [] then (st, [])
    else
      var before := ServeAll(st, frames[..|frames| - 1], clock);
      match ServeFrame(before.0, frames[|frames| - 1], clock)
      case Died => before
      case Served(session, a) => (session, before.1 + [a])
  }

  /** The answers to frames, without those to malformed bytes. */
  function FrameAnswers(answers: seq<Answer>): seq<Answer> {
    if answers == [] then []
    else
      var n := |answers| - 1;
      FrameAnswers(answers[..n]) + if answers[n].Malformed? then [] else [answers[n]]
  }

  /** The answers so far are those of serving the frames so far, one each. */
  ghost predicate Faithful(st: Session, c: Conn, clock: Clock)
    requires TxValid(st.tx)
  {
    && ServeAll(st, c.frames, clock) == (c.session, FrameAnswers(c.answers))
    && (c.alive ==> |FrameAnswers(c.answers)| == |c.frames|)
  }

  lemma FrameAnswersSnoc(answers: seq<Answer>, a: Answer)
    ensures FrameAnswers(answers + [a]) == if a.Malformed? then FrameAnswers(answers) else FrameAnswers(answers) + [a]
  {
    assert (answers + [a])[..|answers|] == answers;
  }

  lemma ConsumeFaithful(st: Session, c: Conn, v: RespType, rest: Bytes, clock: Clock)
    requires TxValid(st.tx) && TxValid(c.session.tx) && c.alive && Faithful(st, c, clock)
    ensures Faithful(st, Consume(c, v, rest, clock), clock)
  {
    hide ServeFrame, FrameAnswers;
    assert (c.frames + [v])[..|c.frames|] == c.frames;
    var r := ServeFrame(c.session, v, clock);
    if r.Served? {
      FrameAnswersSnoc(c.answers, r.answer);
    }
  }

  lemma {:induction false} DrainFaithful(st: Session, c: Conn, clock: Clock)
    requires TxValid(st.tx) && TxValid(c.session.tx) && Faithful(st, c, clock)
    ensures Faithful(st, Drain(c, clock), clock)
    decreases |c.buf|
  {
    hide Parse, Drain, Consume, ServeAll, FrameAnswers;
    if !c.alive || c.buf == [] {
      DrainStops(c, clock);
    } else {
      DrainStep(c, clock);
      match Parse(c.buf)
      case Ok(v, n) =>
        ConsumeShrinks(c, v, n, clock);
        ConsumeFaithful(st, c, v, c.buf[n..], clock);
        DrainFaithful(st, Consume(c, v, c.buf[n..], clock), clock);
      case Invalid(msg) => FrameAnswersSnoc(c.answers, Malformed(msg));
      case _ =>
    }
  }

  /**
   In every run each consumed frame has exactly one answer, in order, and malformed bytes add nothing but
   their own errors.
   */
  lemma {:induction false} OneAnswerPerFrame(st: Session, chunks: seq<Bytes>, clock: Clock)
    requires TxValid(st.tx)
    ensures Faithful(st, ReceiveAll(Conn([], st, [], [], true), chunks, clock), clock)
    decreases |chunks|
  {
    var start := Conn([], st, [], [], true);
    if chunks != [] {
      hide Drain, ServeAll, FrameAnswers;
      var c := ReceiveAll(start, chunks[..|chunks| - 1], clock);
      OneAnswerPerFrame(st, chunks[..|chunks| - 1], clock);
      if c.alive {
        DrainFaithful(st, c.(buf := c.buf + chunks[|chunks| - 1]), clock);
      }
    }
  }

  // ---- From values on the wire to answers ----

  /** Frames consumed one after another by a connection with an empty buffer. */
  ghost function ConsumeAll(c: Conn, frames: seq<RespType>, clock: Clock): (r: Conn)
    requires TxValid(c.session.tx)
    ensures TxValid(r.session.tx)
    decreases |frames|
  {
    if frames == [] || !c.alive then c
    else ConsumeAll(Consume(c, frames[0], [], clock), frames[1..], clock)
  }

  lemma {:induction false} DrainPrinted(c: Conn, vs: seq<RespType>, clock: Clock)
    requires TxValid(c.session.tx) && c.buf == [] && AllWellFormed(vs) && AllLineSafe(vs)
    ensures Drain(With(c, WireAll(vs)), clock) == ConsumeAll(c, NormaliseAll(vs), clock)
    ensures !HitsInvalid(With(c, WireAll(vs)), clock)
    decreases |vs|
  {
    hide Parse, Drain, Consume, HitsInvalid;
    var full := With(c, WireAll(vs));
    if !c.alive || vs == [] {
      assert full == c;
      DrainStops(c, clock);
      HitsNot(c, clock);
    } else {
      var v, rest := vs[0], WireAll(vs[1..]);
      var n := |Wire(v)|;
      RoundTrip(v, rest);
      assert full.buf == Wire(v) + rest && full.buf[n..] == rest;
      assert NormaliseAll(vs)[0] == Normalise(v) && NormaliseAll(vs)[1..] == NormaliseAll(vs[1..]);
      DrainStep(full, clock);
      HitsStep(full, clock);
      ConsumeBare(c, Normalise(v), rest, clock);
      DrainPrinted(Consume(c, Normalise(v), [], clock), vs[1..], clock);
    }
  }

  lemma ConsumeBare(c: Conn, v: RespType, rest: Bytes, clock: Clock)
    requires TxValid(c.session.tx) && c.alive && c.buf == []
    ensures Consume(c, v, [], clock).buf == []
    ensures forall b :: Consume(c.(buf := b), v, rest, clock) == With(Consume(c, v, [], clock), rest)
  {
    hide ServeFrame;
  }

  /**
   A client that prints well-formed values and sends the bytes in any pieces is served exactly those
   values (errors read as simple strings), in order, with nothing left over.
   */
  lemma PipelinedClient(st: Session, vs: seq<RespType>, chunks: seq<Bytes>, clock: Clock)
    requires TxValid(st.tx) && AllWellFormed(vs) && AllLineSafe(vs) && Concat(chunks) == WireAll(vs)
    ensures var start := Conn([], st, [], [], true);
      ReceiveAll(start, chunks, clock) == ConsumeAll(start, NormaliseAll(vs), clock)
  {
    hide Drain, HitsInvalid, Consume, ReceiveAll, Receive, ConsumeAll;
    var start := Conn([], st, [], [], true);
    DrainPrinted(start, vs, clock);
    var stream := WireAll(vs);
    if stream != [] {
      var n := |stream| - 1;
      assert [] + stream[..n] + stream[n..] == [] + stream;
      if HitsInvalid(With(start, stream[..n]), clock) {
        HitsMonotone(With(start, stream[..n]), stream[n..], clock);
      }
    }
    CutsAgree(start, chunks, clock);
    ReceiveIsDrain(start, stream, clock);
  }
}
