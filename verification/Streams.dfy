/** What becomes of a connection, read off the bytes it receives: when the cuts of a stream matter, and when it dies. */
module Streams {
  import opened ByteStrings
  import opened RespTypes
  import opened RespParser
  import opened RespProofs
  import opened Grammar
  import opened Verdicts
  import opened Dispatcher
  import opened Connection
  import opened Pipelining
  import opened Replies

  ghost predicate SomePanic(frames: seq<RespType>) {
    exists i :: 0 <= i < |frames| && Panics(frames[i])
  }

  /** Complete frames, none of them a known command that lacks arguments, and then bytes with the given flaw. */
  ghost predicate Ahead(b: Bytes, flaw: Flaw) {
    exists vs, k: nat :: k <= |b| && EncodesAll(vs, b[..k]) && !SomePanic(vs) && Flawed(b[k..], flaw)
  }

  /** Complete frames, one of them a known command that lacks arguments, or fatal bytes behind them. */
  ghost predicate Lethal(b: Bytes) {
    exists vs, k: nat :: LethalAt(b, vs, k)
  }

  ghost predicate LethalAt(b: Bytes, vs: seq<RespType>, k: nat) {
    k <= |b| && EncodesAll(vs, b[..k]) && (SomePanic(vs) || Flawed(b[k..], Fatal))
  }

  // ---- Runs of frames ----

  lemma PanicCons(v: RespType, vs: seq<RespType>)
    ensures SomePanic([v] + vs) <==> Panics(v) || SomePanic(vs)
  {
    hide Panics;
    var all := [v] + vs;
    assert all[0] == v && forall i :: 0 <= i < |vs| ==> all[i + 1] == vs[i];
    assert forall i :: 0 < i < |all| ==> all[i] == vs[i - 1];
  }

  lemma PanicSnoc(vs: seq<RespType>, v: RespType)
    ensures SomePanic(vs + [v]) <==> SomePanic(vs) || Panics(v)
  {
    hide Panics;
    var all := vs + [v];
    assert all[|vs|] == v && forall i :: 0 <= i < |vs| ==> all[i] == vs[i];
  }

  /** Frames at the head of a buffer that starts with a frame start with that frame. */
  lemma FramesHead(b: Bytes, vs: seq<RespType>, k: nat)
    requires k <= |b| && EncodesAll(vs, b[..k]) && vs != []
    ensures Parse(b).Ok? && Parse(b).value == vs[0] && Parse(b).consumed <= k
    ensures EncodesAll(vs[1..], b[Parse(b).consumed..][..k - Parse(b).consumed])
  {
    hide Parse, Encodes;
    var w := b[..k];
    var j :| 0 <= j <= |w| && Encodes(vs[0], w[..j]) && EncodesAll(vs[1..], w[j..]);
    assert b == w[..j] + b[j..];
    ParserComplete(vs[0], w[..j], b[j..]);
    assert w[j..] == b[j..][..k - j];
  }

  lemma FramesCons(b: Bytes, vs: seq<RespType>, k: nat)
    requires Parse(b).Ok? && |b| < USIZE_MODULUS
    requires var n := Parse(b).consumed; k <= |b| - n && EncodesAll(vs, b[n..][..k])
    ensures EncodesAll([Parse(b).value] + vs, b[..Parse(b).consumed + k])
  {
    hide Parse, Encodes;
    var v, n := Parse(b).value, Parse(b).consumed;
    ParserSound(b);
    var w, all := b[..n + k], [v] + vs;
    assert w[..n] == b[..n] && w[n..] == b[n..][..k] && all[0] == v && all[1..] == vs;
  }

  lemma NoFrames(b: Bytes)
    ensures EncodesAll([], b[..0]) && !SomePanic([]) && b[0..] == b
  {
  }

  /** Behind a complete frame the rest decides, unless the frame lacks arguments. */
  lemma AheadOfFrame(b: Bytes, flaw: Flaw)
    requires Parse(b).Ok? && |b| <= ISIZE_MAX
    ensures Ahead(b, flaw) <==> !Panics(Parse(b).value) && Ahead(b[Parse(b).consumed..], flaw)
  {
    hide Parse, EncodesAll, Flawed, SomePanic, Panics;
    var v, n := Parse(b).value, Parse(b).consumed;
    var rest := b[n..];
    FlawExactly(b, flaw);
    forall vs, k: nat | k <= |b| && EncodesAll(vs, b[..k]) && !SomePanic(vs) && Flawed(b[k..], flaw)
      ensures !Panics(v) && Ahead(rest, flaw)
    {
      FirstOfFrames(b, vs, k);
      PanicCons(v, vs[1..]);
      assert rest[k - n..] == b[k..];
    }
    if !Panics(v) {
      forall vs, k: nat | k <= |rest| && EncodesAll(vs, rest[..k]) && !SomePanic(vs) && Flawed(rest[k..], flaw)
        ensures Ahead(b, flaw)
      {
        FramesCons(b, vs, k);
        PanicCons(v, vs);
        assert b[n + k..] == rest[k..];
      }
    }
  }

  /** The frames before a flaw of a buffer that starts with a frame, which itself has none. */
  lemma FirstOfFrames(b: Bytes, vs: seq<RespType>, k: nat)
    requires Parse(b).Ok? && k <= |b| <= ISIZE_MAX && EncodesAll(vs, b[..k])
    requires vs == [] ==> Flawed(b[k..], Broken) || Flawed(b[k..], Fatal)
    ensures vs != [] && vs == [Parse(b).value] + vs[1..] && Parse(b).consumed <= k
    ensures EncodesAll(vs[1..], b[Parse(b).consumed..][..k - Parse(b).consumed])
  {
    hide Parse, Flawed;
    FlawExactly(b, Broken);
    FlawExactly(b, Fatal);
    assert vs == [] ==> k == 0;
    assert b[0..] == b;
    FramesHead(b, vs, k);
  }

  /** Without a frame at the head there is only the flaw of the head. */
  lemma AheadAtOnce(b: Bytes, flaw: Flaw)
    requires !Parse(b).Ok? && |b| <= ISIZE_MAX
    ensures Ahead(b, flaw) <==> Shows(Parse(b), flaw)
    ensures Lethal(b) <==> Parse(b).Panic?
  {
    hide Parse, Flawed;
    FlawExactly(b, flaw);
    FlawExactly(b, Fatal);
    NoFrames(b);
    forall vs, k: nat | k <= |b| && EncodesAll(vs, b[..k]) ensures vs == [] && k == 0 {
      if vs != [] {
        FramesHead(b, vs, k);
      }
    }
    if Parse(b).Panic? {
      assert LethalAt(b, [], 0);
    }
  }

  lemma LethalByFrame(b: Bytes)
    requires Parse(b).Ok? && |b| <= ISIZE_MAX && Panics(Parse(b).value)
    ensures Lethal(b)
  {
    hide Parse, EncodesAll, Flawed, SomePanic, Panics;
    var v, n := Parse(b).value, Parse(b).consumed;
    NoFrames(b[n..]);
    FramesCons(b, [], 0);
    PanicCons(v, []);
    assert LethalAt(b, [v] + [], n + 0);
  }

  lemma LethalBehind(b: Bytes)
    requires Parse(b).Ok? && |b| <= ISIZE_MAX && Lethal(b[Parse(b).consumed..])
    ensures Lethal(b)
  {
    hide Parse, EncodesAll, Flawed, SomePanic, Panics;
    var v, n := Parse(b).value, Parse(b).consumed;
    var rest := b[n..];
    var vs, k: nat :| LethalAt(rest, vs, k);
    FramesCons(b, vs, k);
    PanicCons(v, vs);
    assert b[n + k..] == rest[k..];
    assert LethalAt(b, [v] + vs, n + k);
  }

  lemma LethalAhead(b: Bytes)
    requires Parse(b).Ok? && |b| <= ISIZE_MAX && Lethal(b)
    ensures Panics(Parse(b).value) || Lethal(b[Parse(b).consumed..])
  {
    hide Parse, EncodesAll, Flawed, SomePanic, Panics;
    var v, n := Parse(b).value, Parse(b).consumed;
    var vs, k: nat :| LethalAt(b, vs, k);
    NoFrames(b);
    FirstOfFrames(b, vs, k);
    PanicCons(v, vs[1..]);
    assert b[n..][k - n..] == b[k..];
    assert !Panics(v) ==> LethalAt(b[n..], vs[1..], k - n);
  }

  lemma LethalFrame(b: Bytes)
    requires Parse(b).Ok? && |b| <= ISIZE_MAX
    ensures Lethal(b) <==> Panics(Parse(b).value) || Lethal(b[Parse(b).consumed..])
  {
    hide Parse, Panics, Lethal;
    if Panics(Parse(b).value) {
      LethalByFrame(b);
    } else if Lethal(b[Parse(b).consumed..]) {
      LethalBehind(b);
    } else if Lethal(b) {
      LethalAhead(b);
    }
  }

  // ---- One read ----

  lemma ConsumeOutcome(c: Conn, frame: RespType, rest: Bytes, clock: Clock)
    requires TxValid(c.session.tx) && c.alive
    ensures var next := Consume(c, frame, rest, clock);
      && next.frames == c.frames + [frame]
      && if Panics(frame) then !next.alive && next.buf == [] else next.alive && next.buf == rest
  {
    hide ServeFrame, Panics;
    DiesExactly(c.session, frame, clock);
  }

  /** Draining comes upon malformed bytes exactly when the buffer says so; session and clock do not matter. */
  lemma {:induction false} HitsInvalidExactly(c: Conn, clock: Clock)
    requires TxValid(c.session.tx) && |c.buf| <= ISIZE_MAX
    ensures HitsInvalid(c, clock) <==> c.alive && Ahead(c.buf, Broken)
    decreases |c.buf|
  {
    hide Parse, Consume, HitsInvalid, Ahead, Panics;
    if !c.alive || c.buf == [] {
      HitsNot(c, clock);
      AheadOfNothing();
    } else {
      HitsStep(c, clock);
      if Parse(c.buf).Ok? {
        var v, n := Parse(c.buf).value, Parse(c.buf).consumed;
        AheadOfFrame(c.buf, Broken);
        ConsumeShrinks(c, v, n, clock);
        ConsumeOutcome(c, v, c.buf[n..], clock);
        HitsInvalidExactly(Consume(c, v, c.buf[n..], clock), clock);
      } else {
        AheadAtOnce(c.buf, Broken);
      }
    }
  }

  lemma AheadOfNothing()
    ensures forall flaw :: !Ahead([], flaw)
    ensures !Lethal([])
  {
    hide Ahead, Lethal;
    forall flaw ensures !Ahead([], flaw) {
      AheadAtOnce([], flaw);
    }
    AheadAtOnce([], Fatal);
  }

  /** A running connection survives draining its buffer exactly when the buffer is not lethal. */
  lemma {:induction false} DrainAliveExactly(c: Conn, clock: Clock)
    requires TxValid(c.session.tx) && c.alive && |c.buf| <= ISIZE_MAX
    ensures Drain(c, clock).alive <==> !Lethal(c.buf)
    ensures !SomePanic(c.frames) ==>
      (Drain(c, clock).alive <==> !SomePanic(Drain(c, clock).frames) && !Ahead(c.buf, Fatal))
    decreases |c.buf|
  {
    hide Parse, Drain, Consume, SomePanic, Ahead, Lethal, Panics;
    AheadOfNothing();
    if c.buf == [] {
      DrainStops(c, clock);
    } else {
      DrainStep(c, clock);
      if Parse(c.buf).Ok? {
        var v, n := Parse(c.buf).value, Parse(c.buf).consumed;
        var next := Consume(c, v, c.buf[n..], clock);
        AheadOfFrame(c.buf, Fatal);
        LethalFrame(c.buf);
        ConsumeShrinks(c, v, n, clock);
        ConsumeOutcome(c, v, c.buf[n..], clock);
        PanicSnoc(c.frames, v);
        if next.alive {
          DrainAliveExactly(next, clock);
        } else {
          DrainStops(next, clock);
        }
      } else {
        AheadAtOnce(c.buf, Fatal);
      }
    }
  }

  // ---- Whole streams ----

  /** Every buffer fits one allocation, as every buffer of the implementation does. */
  ghost predicate BuffersFit(c: Conn, chunks: seq<Bytes>, clock: Clock)
    requires TxValid(c.session.tx)
    decreases |chunks|
  {
    chunks == [] ||
    var init, l := chunks[..|chunks| - 1], chunks[|chunks| - 1];
    BuffersFit(c, init, clock) && |ReceiveAll(c, init, clock).buf| + |l| <= ISIZE_MAX
  }

  /** With one of the reads the buffer of the running connection holds fatal bytes behind complete frames. */
  ghost predicate FatalRead(c: Conn, chunks: seq<Bytes>, clock: Clock)
    requires TxValid(c.session.tx)
    decreases |chunks|
  {
    chunks != [] &&
    var init, l := chunks[..|chunks| - 1], chunks[|chunks| - 1];
    var before := ReceiveAll(c, init, clock);
    FatalRead(c, init, clock) || (before.alive && Ahead(before.buf + l, Fatal))
  }

  /**
   The connection lives on, whatever arrives in whatever pieces, if and only if no consumed frame is a
   known command that lacks arguments and no read brings fatal bytes behind complete frames.
   */
  lemma {:induction false} AliveExactly(st: Session, chunks: seq<Bytes>, clock: Clock)
    requires TxValid(st.tx) && BuffersFit(Conn([], st, [], [], true), chunks, clock)
    ensures var start := Conn([], st, [], [], true);
      var c := ReceiveAll(start, chunks, clock);
      c.alive <==> !SomePanic(c.frames) && !FatalRead(start, chunks, clock)
    decreases |chunks|
  {
    var start := Conn([], st, [], [], true);
    if chunks != [] {
      hide Drain, SomePanic, Ahead;
      var init, l := chunks[..|chunks| - 1], chunks[|chunks| - 1];
      AliveExactly(st, init, clock);
      var before := ReceiveAll(start, init, clock);
      if before.alive {
        DrainAliveExactly(With(before, l), clock);
      }
    }
  }

  /** All but the last byte of a stream, behind the bytes already there. */
  function AllButLast(buf: Bytes, stream: Bytes): Bytes {
    buf + if stream == [] then [] else stream[..|stream| - 1]
  }

  lemma EarlyInvalidExactly(c: Conn, stream: Bytes, clock: Clock)
    requires TxValid(c.session.tx) && c.alive && |c.buf| + |stream| <= ISIZE_MAX
    ensures EarlyInvalid(c, stream, clock) <==> stream != [] && Ahead(AllButLast(c.buf, stream), Broken)
  {
    hide HitsInvalid, Ahead;
    if stream != [] {
      HitsInvalidExactly(With(c, stream[..|stream| - 1]), clock);
    }
  }

  /**
   Chunk independence by the bytes alone: every way of cutting the stream into reads gives the frames,
   replies, session and tail of one read if and only if all of it but its last byte is not complete frames
   followed by malformed bytes.
   */
  lemma CutsMatterExactly(c: Conn, stream: Bytes, clock: Clock)
    requires TxValid(c.session.tx) && c.alive && Settled(c) && |c.buf| + |stream| <= ISIZE_MAX
    ensures (forall chunks :: Concat(chunks) == stream ==> ReceiveAll(c, chunks, clock) == Receive(c, stream, clock))
      <==> !(stream != [] && Ahead(AllButLast(c.buf, stream), Broken))
  {
    hide ReceiveAll, Receive, Settled, Ahead, EarlyInvalid;
    ChunkIndependence(c, stream, clock);
    EarlyInvalidExactly(c, stream, clock);
  }

  /**
   A stream that is not malformed early: however it is cut, the connection survives it exactly when it is
   not lethal.
   */
  lemma StreamAliveExactly(st: Session, chunks: seq<Bytes>, clock: Clock)
    requires TxValid(st.tx) && |Concat(chunks)| <= ISIZE_MAX
    requires !(Concat(chunks) != [] && Ahead(AllButLast([], Concat(chunks)), Broken))
    ensures ReceiveAll(Conn([], st, [], [], true), chunks, clock).alive <==> !Lethal(Concat(chunks))
  {
    hide ReceiveAll, Drain, Ahead, EarlyInvalid, Lethal;
    var start, stream := Conn([], st, [], [], true), Concat(chunks);
    EarlyInvalidExactly(start, stream, clock);
    CutsAgree(start, chunks, clock);
    assert [] + stream == stream;
    DrainAliveExactly(With(start, stream), clock);
  }

  /** A count line of two to the 58 or more ends a connection, whatever follows it. */
  lemma HugeCountEnds(st: Session, t: Bytes, n: nat, x: Bytes, clock: Clock)
    requires TxValid(st.tx) && Reads(t, n) && n >= 0x400_0000_0000_0000
    ensures !Receive(Conn([], st, [], [], true), [42] + t + CRLF + x, clock).alive
  {
    hide Parse, Reads, Consume;
    var b := [42] + t + CRLF + x;
    HugeCountPanics(t, n, x);
    assert [] + b == b;
    DrainStep(Conn(b, st, [], [], true), clock);
  }
}
