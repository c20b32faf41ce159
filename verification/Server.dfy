/** Laws that span several parts of the server. */
module Server {
  import opened ByteStrings
  import opened RespTypes
  import opened RespParser
  import opened RespProofs
  import opened Commands
  import opened Dispatcher
  import opened Connection
  import opened Worlds
  import W = Worlds
  import opened Pipelining
  import Q = Requests
  import S = Store
  import F = RdbFormat
  import Snapshots
  import Utf8

  // ---- Saving what the server holds ----

  /** Every store the server can reach fits the snapshot format, as far as its lengths do. */
  lemma ReachableStorable(events: seq<Event>, clock: Clock)
    requires ClientsValid(W.START) && SoundEvents(events) && Short(W.Run(W.START, events, clock).0.store)
    ensures Snapshots.StorableStore(W.Run(W.START, events, clock).0.store)
  {
    hide W.Run;
    StartValid();
    RunSound(W.START, events, clock);
    ShortIsStorable(W.Run(W.START, events, clock).0.store);
  }

  /**
   Save and restart: after any run, of any clients and with any restarts before, the next start gets the
   values and the expiring keys back if and only if no expiring key reads `string` or `list` in any case
   and no list is empty.
   */
  lemma SaveAndRestart(events: seq<Event>, clock: Clock, s: Snapshots.Save, loadClock: nat -> F.Reading)
    requires ClientsValid(W.START) && SoundEvents(events)
    requires s.store == W.Run(W.START, events, clock).0.store && Short(s.store) && Snapshots.ValidSave(s)
    ensures (var r := F.Load(Snapshots.File(s), loadClock);
             r.Some? && r.value.store.data == s.store.data && r.value.store.exps.Keys == s.store.exps.Keys)
      <==> !Snapshots.SomeKeyCollides(s.store) && forall k :: k in s.store.data ==> s.store.data[k] != S.List([])
  {
    hide W.Run, F.Load, Snapshots.File, Snapshots.StorableStore, Short, Snapshots.SomeKeyCollides;
    ReachableStorable(events, clock);
    Snapshots.SnapshotExactly(s, loadClock);
  }

  // ---- Negative durations ----

  lemma DivideSum(x: int, q: int)
    ensures (x + S.NANOS_PER_MILLI * q) / S.NANOS_PER_MILLI == x / S.NANOS_PER_MILLI + q
  {
  }

  /**
   A negative number of milliseconds asked for at `t` becomes a deadline two to the 64 milliseconds away, so
   the key does not lapse in memory. Saved and loaded while that deadline is still ahead, it is past at
   once exactly when the wall clock at `t` is at least that many milliseconds after the epoch; otherwise it
   survives to the millisecond.
   */
  lemma NegativeExpiry(t: S.Instant, ms: int, saved: F.Reading, loaded: F.Reading, off: int)
    requires I32_MIN <= ms < 0 && Snapshots.Offset(saved, off) && Snapshots.Offset(loaded, off)
    requires t <= saved.instant <= loaded.instant && loaded.instant + S.NANOS_PER_MILLI <= Later(t, ms)
    ensures forall cell: S.Cell, now ::
      cell.deadline == Some(Later(t, ms)) && now <= Later(t, ms) ==> !S.Expired(cell, now)
    ensures F.LoadedDeadline(F.SavedMillis(Later(t, ms), saved), loaded) == loaded.instant <==>
      (t + off) / S.NANOS_PER_MILLI + ms >= 0
    ensures (t + off) / S.NANOS_PER_MILLI + ms < 0 ==>
      0 <= Later(t, ms) - F.LoadedDeadline(F.SavedMillis(Later(t, ms), saved), loaded) < S.NANOS_PER_MILLI
  {
    var millis := (t + off) / S.NANOS_PER_MILLI;
    var e := millis + ms + USIZE_MODULUS;
    DivideSum(t + off, ms + USIZE_MODULUS);
    assert Snapshots.ExactMillis(Later(t, ms), saved) == e;
    assert e * S.NANOS_PER_MILLI <= Later(t, ms) + off < (e + 1) * S.NANOS_PER_MILLI;
    if millis + ms >= 0 {
      WrappedMillis(e);
      assert F.SavedMillis(Later(t, ms), saved) <= millis + ms;
    } else {
      assert F.SavedMillis(Later(t, ms), saved) == e;
    }
  }

  lemma WrappedMillis(e: nat)
    requires e >= USIZE_MODULUS
    ensures e % USIZE_MODULUS <= e - USIZE_MODULUS
  {
    assert e % USIZE_MODULUS == (e - USIZE_MODULUS) % USIZE_MODULUS;
  }

  // ---- A client that pipelines requests ----

  /** A request as sent: its name may be in any mix of cases. */
  datatype Sent = Sent(request: Q.Request, name: Bytes)

  function Words(s: Sent): seq<Bytes> {
    [s.name] + Q.Args(s.request)
  }

  function Frame(s: Sent): RespType {
    Array(Bulks(Words(s)))
  }

  predicate Sendable(s: Sent) {
    && Upper(s.name) == Q.Name(s.request)
    && FitsVec(|Words(s)|) && forall i :: 0 <= i < |Words(s)| ==> Utf8.Valid(Words(s)[i]) && |Words(s)[i]| <= ISIZE_MAX
  }

  function Frames(sent: seq<Sent>): seq<RespType> {
    if sent == [] then [] else [Frame(sent[0])] + Frames(sent[1..])
  }

  ghost predicate AllSendable(sent: seq<Sent>) {
    forall i :: 0 <= i < |sent| ==> Sendable(sent[i])
  }

  /** What becomes of a request: it is extracted at its own clock reading and dispatched, or refused. */
  ghost function Handled(st: Session, r: Q.Request, clock: Clock): (h: (Session, Answer))
    requires TxValid(st.tx)
    ensures TxValid(h.0.tx)
  {
    var next := st.(tick := st.tick + 1);
    if !Q.WellTyped(r) then (next, Refused(Q.UNKNOWN_OPTION))
    else
      var d := Dispatch(next, Q.Yielded(r, clock(st.tick)), clock);
      (d.0, match d.1 case Success(v) => Answered(v) case Failure(e) => Refused(e))
  }

  /** The requests handled one after another. */
  ghost function HandleAll(st: Session, sent: seq<Sent>, clock: Clock): (r: (Session, seq<Answer>))
    requires TxValid(st.tx)
    ensures TxValid(r.0.tx)
    decreases |sent|
  {
    if sent == [] then (st, [])
    else
      var h := Handled(st, sent[0].request, clock);
      var rest := HandleAll(h.0, sent[1..], clock);
      (rest.0, [h.1] + rest.1)
  }

  lemma RequestServed(st: Session, s: Sent, clock: Clock)
    requires TxValid(st.tx) && Sendable(s)
    ensures var h := Handled(st, s.request, clock); ServeFrame(st, Frame(s), clock) == Served(h.0, h.1)
  {
    hide Dispatch, ExtractCommand, Q.Yielded, Q.WellTyped;
    Q.RequestExtracted(s.request, s.name, clock(st.tick));
  }

  lemma RequestConsumed(c: Conn, s: Sent, clock: Clock)
    requires TxValid(c.session.tx) && c.alive && Sendable(s)
    ensures var h := Handled(c.session, s.request, clock);
      Consume(c, Frame(s), [], clock) == Conn([], h.0, c.frames + [Frame(s)], c.answers + [h.1], true)
  {
    hide Handled, ServeFrame, Sendable, Frame;
    RequestServed(c.session, s, clock);
  }

  lemma {:induction false} RequestsConsumed(c: Conn, sent: seq<Sent>, clock: Clock)
    requires TxValid(c.session.tx) && c.alive && c.buf == [] && AllSendable(sent)
    ensures var r := HandleAll(c.session, sent, clock);
      ConsumeAll(c, Frames(sent), clock) == Conn([], r.0, c.frames + Frames(sent), c.answers + r.1, true)
    decreases |sent|
  {
    hide Handled, Consume, Sendable, Frame;
    if sent == [] {
      assert c.frames + [] == c.frames && c.answers + [] == c.answers;
    } else {
      hide ConsumeAll;
      var v, more := Frame(sent[0]), Frames(sent[1..]);
      var next := Consume(c, v, [], clock);
      RequestConsumed(c, sent[0], clock);
      RequestsConsumed(next, sent[1..], clock);
      ConsumeAllCons(c, v, more, clock);
      var a, rest := next.answers[|c.answers|], HandleAll(next.session, sent[1..], clock).1;
      Regroup(c.frames, v, more);
      Regroup(c.answers, a, rest);
    }
  }

  lemma Regroup<T>(a: seq<T>, x: T, b: seq<T>)
    ensures a + [x] + b == a + ([x] + b)
  {
  }

  lemma ConsumeAllCons(c: Conn, v: RespType, more: seq<RespType>, clock: Clock)
    requires TxValid(c.session.tx) && c.alive
    ensures ConsumeAll(c, [v] + more, clock) == ConsumeAll(Consume(c, v, [], clock), more, clock)
  {
    hide Consume;
    assert ([v] + more)[1..] == more;
  }

  lemma {:induction false} FramesClean(sent: seq<Sent>)
    requires AllSendable(sent)
    ensures AllClean(Frames(sent))
    decreases |sent|
  {
    if sent != [] {
      BulksClean(Words(sent[0]));
      FramesClean(sent[1..]);
      AllCleanCons(Frame(sent[0]), Frames(sent[1..]));
    }
  }

  /**
   A client pipelines requests in pieces of any size: the server answers each of them once, in order, as
   if they had been handled one by one, does not crash, and keeps no byte.
   */
  lemma PipelinedRequests(st: Session, sent: seq<Sent>, chunks: seq<Bytes>, clock: Clock)
    requires TxValid(st.tx) && AllSendable(sent) && Concat(chunks) == WireAll(Frames(sent))
    ensures var r := HandleAll(st, sent, clock);
      ReceiveAll(Conn([], st, [], [], true), chunks, clock) == Conn([], r.0, Frames(sent), r.1, true)
  {
    hide HandleAll, ConsumeAll, ReceiveAll, Frames, WireAll;
    FramesClean(sent);
    PipelinedClient(st, Frames(sent), chunks, clock);
    RequestsConsumed(Conn([], st, [], [], true), sent, clock);
    var r := HandleAll(st, sent, clock);
    assert [] + Frames(sent) == Frames(sent) && [] + r.1 == r.1;
  }
}
