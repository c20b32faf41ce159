/** Which frames are answered with something a client cannot decode, and which ones end the connection. */
module Replies {
  import opened ByteStrings
  import opened RespTypes
  import opened RespParser
  import opened RespProofs
  import opened Commands
  import opened Dispatcher
  import opened Connection
  import opened Pipelining
  import opened Invariants
  import opened Requests
  import Decimal
  import Utf8

  // ---- Texts the parser returns ----

  lemma BulksValid(words: seq<Bytes>)
    requires AllValid(words)
    ensures ValidText(Array(Bulks(words)))
  {
    hide Utf8.Valid;
  }

  lemma LeafValid(b: Bytes)
    requires b != [] && b[0] != 42 && Parse(b).Ok?
    ensures ValidText(Parse(b).value)
  {
    hide FirstLine, Utf8.Valid, ParseArray, Decimal.ParseSigned, ParseUsize, Utf8.Words;
    if !IsTypeByte(b[0]) {
      Utf8.WordsValid(FirstLine(b).data);
      BulksValid(Utf8.Words(FirstLine(b).data));
    }
  }

  /** Every string of a parsed frame is valid UTF-8. */
  lemma {:induction false} ParseValid(b: Bytes)
    requires Parse(b).Ok?
    ensures ValidText(Parse(b).value)
    decreases |b|, 0, 1
  {
    if b[0] != 42 {
      LeafValid(b);
    } else {
      hide Parse, ParseArray;
      ParseIsArray(b);
      ArrayValid(b);
    }
  }

  lemma {:induction false} ArrayValid(b: Bytes)
    requires b != [] && ParseArray(b).Ok?
    ensures ValidText(ParseArray(b).value)
    decreases |b|, 0, 0
  {
    hide Parse, ParseElements, ParseUsize, FirstLine;
    var line := FirstLine(b[1..]);
    ElementsValid(b[line.len + 1..], ParseUsize(line.data).value);
  }

  lemma {:induction false} ElementsValid(b: Bytes, count: nat)
    requires ParseElements(b, count).Elements?
    ensures forall i :: 0 <= i < count ==> ValidText(ParseElements(b, count).values[i])
    decreases |b|, 1
  {
    hide Parse, ParseElements, ValidText;
    if count > 0 {
      ElementsCons(b, count - 1);
      ParseValid(b);
      ElementsValid(b[Parse(b).consumed..], count - 1);
    }
  }

  // ---- Messages of the parser ----

  lemma LeafMessage(b: Bytes)
    requires b != [] && b[0] != 42 && Parse(b).Invalid?
    ensures Printable(Parse(b).msg)
  {
    hide FirstLine, Utf8.Valid, ParseArray, Decimal.ParseSigned, Decimal.ParseUnsigned, Utf8.Words;
  }

  /** The parser's complaints are one line of printable text. */
  lemma {:induction false} ParseMessage(b: Bytes)
    requires Parse(b).Invalid?
    ensures Printable(Parse(b).msg)
    decreases |b|, 0, 1
  {
    if b[0] != 42 {
      LeafMessage(b);
    } else {
      hide Parse, ParseArray;
      ParseIsArray(b);
      ArrayMessage(b);
    }
  }

  lemma {:induction false} ArrayMessage(b: Bytes)
    requires b != [] && ParseArray(b).Invalid?
    ensures Printable(ParseArray(b).msg)
    decreases |b|, 0, 0
  {
    hide Parse, ParseElements, FirstLine, Utf8.Valid, Decimal.ParseUnsigned;
    var line := FirstLine(b[1..]);
    var size := ParseUsize(line.data);
    if size.Success? {
      ElementsMessage(b[line.len + 1..], size.value);
    }
  }

  lemma {:induction false} ElementsMessage(b: Bytes, count: nat)
    requires ParseElements(b, count).Stopped? && ParseElements(b, count).verdict.Invalid?
    ensures Printable(ParseElements(b, count).verdict.msg)
    decreases |b|, 1
  {
    hide Parse, Printable;
    if Parse(b).Ok? {
      ElementsMessage(b[Parse(b).consumed..], count - 1);
    } else {
      ParseMessage(b);
    }
  }

  // ---- Extraction ----

  lemma UpperHead(s: Bytes)
    ensures Utf8.CharLen(Upper(s)) == Utf8.CharLen(s)
    ensures Upper(s)[Utf8.CharLen(s)..] == Upper(s[Utf8.CharLen(s)..])
  {
  }

  lemma {:induction false} UpperValid(s: Bytes)
    requires Utf8.Valid(s)
    ensures Utf8.Valid(Upper(s))
    decreases |s|
  {
    hide Utf8.CharLen;
    if s != [] {
      UpperHead(s);
      UpperValid(s[Utf8.CharLen(s)..]);
    }
  }

  lemma UpperLines(s: Bytes)
    ensures HasCrlf(Upper(s)) <==> HasCrlf(s)
  {
    assert forall i :: CrlfAt(Upper(s), i) <==> CrlfAt(s, i);
  }

  /** A line end in a text behind a printable one. */
  lemma PrefixLines(a: Bytes, b: Bytes)
    requires Printable(a)
    ensures HasCrlf(a + b) <==> HasCrlf(b)
  {
    if i :| CrlfAt(a + b, i) {
      assert CrlfAt(b, i - |a|);
    }
    if i :| CrlfAt(b, i) {
      assert CrlfAt(a + b, i + |a|);
    }
  }

  predicate KnownName(name: Bytes) {
    || name == Ascii("PING") || name == Ascii("COMMAND") || name == Ascii("ECHO") || name == Ascii("SET")
    || name == Ascii("GET") || name == Ascii("DELETE") || name == Ascii("LPUSH") || name == Ascii("RPUSH")
    || name == Ascii("LRANGE") || name == Ascii("EXPIRE") || name == Ascii("MULTI") || name == Ascii("DISCARD")
    || name == Ascii("EXEC") || name == Ascii("SAVE")
  }

  lemma UnknownName(name: Bytes, args: seq<RespType>, now: int)
    requires !KnownName(name)
    ensures ParseCommand(name, args, now) == Bad(Ascii("Unknown command: ") + name)
  {
    hide ParseSet, ParseLRange, ParseExpire, Texts, OneArg;
  }

  lemma {:induction false} TextsValid(args: seq<RespType>)
    requires forall i :: 0 <= i < |args| ==> ValidText(args[i])
    ensures AllValid(Texts(args))
    decreases |args|
  {
    hide Utf8.Valid;
    if args != [] {
      TextsValid(args[1..]);
    }
  }

  /** What comes of a frame of valid strings: a command of valid strings, or a complaint. */
  predicate SoundExtraction(e: Extracted) {
    match e
    case Cmd(c) => Sound(c)
    case Bad(msg) => Printable(msg)
    case Crash => true
  }

  lemma SetSound(args: seq<RespType>, now: int)
    requires forall i :: 0 <= i < |args| ==> ValidText(args[i])
    ensures SoundExtraction(ParseSet(args, now))
  {
    hide Utf8.Valid, ParseInt, Upper, Later;
  }

  lemma LRangeSound(args: seq<RespType>)
    requires forall i :: 0 <= i < |args| ==> ValidText(args[i])
    ensures SoundExtraction(ParseLRange(args))
  {
    hide Utf8.Valid, ParseInt;
  }

  lemma ExpireSound(args: seq<RespType>, now: int)
    requires forall i :: 0 <= i < |args| ==> ValidText(args[i])
    ensures SoundExtraction(ParseExpire(args, now))
  {
    hide Utf8.Valid, ParseInt, Later;
  }

  lemma KeyedSound(name: Bytes, args: seq<RespType>, now: int)
    requires name in [Ascii("ECHO"), Ascii("GET"), Ascii("DELETE")]
    requires forall i :: 0 <= i < |args| ==> ValidText(args[i])
    ensures SoundExtraction(ParseCommand(name, args, now))
  {
    hide ParseSet, ParseLRange, ParseExpire, Texts, Utf8.Valid, Ascii;
    Letters();
  }

  lemma PushSound(name: Bytes, args: seq<RespType>, now: int)
    requires name in [Ascii("LPUSH"), Ascii("RPUSH")]
    requires forall i :: 0 <= i < |args| ==> ValidText(args[i])
    ensures SoundExtraction(ParseCommand(name, args, now))
  {
    hide ParseSet, ParseLRange, ParseExpire, Texts, Utf8.Valid, Ascii;
    Letters();
    if args != [] {
      TextsValid(args[1..]);
    }
  }

  lemma KnownSound(name: Bytes, args: seq<RespType>, now: int)
    requires KnownName(name) && forall i :: 0 <= i < |args| ==> ValidText(args[i])
    ensures SoundExtraction(ParseCommand(name, args, now))
  {
    hide ParseSet, ParseLRange, ParseExpire, OneArg, Texts, Utf8.Valid, Ascii;
    if name in [Ascii("ECHO"), Ascii("GET"), Ascii("DELETE")] {
      KeyedSound(name, args, now);
    } else if name in [Ascii("LPUSH"), Ascii("RPUSH")] {
      PushSound(name, args, now);
    } else {
      SetSound(args, now);
      LRangeSound(args);
      ExpireSound(args, now);
    }
  }

  // ---- One frame ----

  /** The name of the command holds a line end. It is then unknown, and echoed in the complaint. */
  ghost predicate EchoesLineEnd(frame: RespType) {
    frame.Array? && frame.items != [] && frame.items[0].BulkString? && HasCrlf(frame.items[0].text)
  }

  /** A known command with too few arguments: the implementation indexes beyond the end. */
  predicate Panics(frame: RespType) {
    && frame.Array? && frame.items != [] && frame.items[0].BulkString?
    && var name, n := Upper(frame.items[0].text), |frame.items| - 1;
       || (n == 0 && name in [Ascii("ECHO"), Ascii("GET"), Ascii("DELETE"), Ascii("LPUSH"), Ascii("RPUSH")])
       || (n < 3 && name == Ascii("LRANGE"))
       || (n < 2 && name == Ascii("EXPIRE"))
  }

  lemma CrashesExactly(name: Bytes, args: seq<RespType>, now: int)
    ensures ParseCommand(name, args, now).Crash? <==>
      || (|args| == 0 && name in [Ascii("ECHO"), Ascii("GET"), Ascii("DELETE"), Ascii("LPUSH"), Ascii("RPUSH")])
      || (|args| < 3 && name == Ascii("LRANGE"))
      || (|args| < 2 && name == Ascii("EXPIRE"))
  {
    hide Texts, ParseInt, Later, Upper, Ascii;
    Letters();
  }

  lemma KnownHasNoLineEnd(name: Bytes)
    requires KnownName(name)
    ensures !HasCrlf(name)
  {
    PrintableText(name);
  }

  lemma ExtractionComplaint(frame: RespType, now: int)
    requires ValidText(frame)
    ensures ExtractCommand(frame, now).Crash? <==> Panics(frame)
    ensures EchoesLineEnd(frame) ==> ExtractCommand(frame, now).Bad? && HasCrlf(ExtractCommand(frame, now).msg)
    ensures !EchoesLineEnd(frame) && ExtractCommand(frame, now).Bad? ==> !HasCrlf(ExtractCommand(frame, now).msg)
    ensures ExtractCommand(frame, now).Bad? ==> Utf8.Valid(ExtractCommand(frame, now).msg)
    ensures ExtractCommand(frame, now).Cmd? ==> Sound(ExtractCommand(frame, now).cmd)
  {
    hide ParseCommand, KnownName, Utf8.Valid, Sound, HasCrlf, Upper;
    PrintableText(BAD_FORMAT);
    if frame.Array? && frame.items != [] && frame.items[0].BulkString? {
      var text, args := frame.items[0].text, frame.items[1..];
      var name := Upper(text);
      UpperLines(text);
      CrashesExactly(name, args, now);
      if KnownName(name) {
        KnownHasNoLineEnd(name);
        KnownSound(name, args, now);
        if ParseCommand(name, args, now).Bad? {
          PrintableText(ParseCommand(name, args, now).msg);
        }
      } else {
        UnknownName(name, args, now);
        UnknownMessage(text);
      }
    }
  }

  lemma UnknownMessage(text: Bytes)
    requires Utf8.Valid(text)
    ensures var msg := Ascii("Unknown command: ") + Upper(text);
      Utf8.Valid(msg) && (HasCrlf(msg) <==> HasCrlf(Upper(text)))
  {
    hide Utf8.Valid, HasCrlf;
    var head := Ascii("Unknown command: ");
    UpperValid(text);
    PrintableText(head);
    Utf8.ValidConcat(head, Upper(text));
    PrefixLines(head, Upper(text));
  }

  /** In every session a frame ends the connection exactly when a known command lacks arguments. */
  lemma DiesExactly(st: Session, frame: RespType, clock: Clock)
    requires TxValid(st.tx)
    ensures ServeFrame(st, frame, clock).Died? <==> Panics(frame)
  {
    hide Dispatch, ParseCommand;
    if frame.Array? && frame.items != [] && frame.items[0].BulkString? {
      CrashesExactly(Upper(frame.items[0].text), frame.items[1..], clock(st.tick));
    }
  }

  /**
   Any other frame of valid strings, in any sound session: its answer is valid text and can be decoded exactly
   when the command's name holds no line end, whatever the store, the queue and the outcome.
   */
  lemma AnswerDecodesExactly(st: Session, frame: RespType, clock: Clock)
    requires TxValid(st.tx) && SoundSession(st) && ValidText(frame)
    ensures var r := ServeFrame(st, frame, clock);
      !Panics(frame) ==>
        && r.Served? && SoundSession(r.session) && ValidText(AnswerValue(r.answer))
        && (LineSafe(AnswerValue(r.answer)) <==> !EchoesLineEnd(frame))
  {
    hide ExtractCommand, Dispatch, Panics, HasCrlf, Utf8.Valid, Sound, EchoesLineEnd, SoundStore, SoundQueue;
    ExtractionComplaint(frame, clock(st.tick));
    var e, next := ExtractCommand(frame, clock(st.tick)), st.(tick := st.tick + 1);
    if e.Cmd? {
      DispatchSound(next, e.cmd, clock);
      var d := Dispatch(next, e.cmd, clock).1;
      if d.Failure? {
        PrintableText(d.error);
      }
    }
  }

  // ---- Whole connections ----

  function Values(answers: seq<Answer>): (r: seq<RespType>)
    ensures |r| == |answers|
    ensures forall i :: 0 <= i < |r| ==> r[i] == AnswerValue(answers[i])
  {
    seq(|answers|, i requires 0 <= i < |answers| => AnswerValue(answers[i]))
  }

  lemma {:induction false} AnswersAreValues(answers: seq<Answer>)
    ensures AnswersWire(answers) == WireAll(Values(answers))
    decreases |answers|
  {
    if answers != [] {
      hide Wire, WireAll, AnswerValue;
      var n := |answers| - 1;
      AnswersAreValues(answers[..n]);
      assert Values(answers)[..n] == Values(answers[..n]);
      assert Values(answers)[..n + 1] == Values(answers);
      WireAllSnoc(Values(answers), n);
    }
  }

  /** The bytes of answers decode to them if and only if no simple string or error among them has a line end. */
  lemma RepliesDecode(answers: seq<Answer>, x: Bytes)
    requires AllWellFormed(Values(answers))
    ensures (var r := ParseElements(AnswersWire(answers) + x, |answers|);
             r.Elements? && r.values == NormaliseAll(Values(answers)))
      <==> AllLineSafe(Values(answers))
  {
    hide ParseElements, AllWellFormed, AllLineSafe;
    AnswersAreValues(answers);
    if AllLineSafe(Values(answers)) {
      ElementsRoundTrip(Values(answers), x);
    } else {
      NoElementsRoundTrip(Values(answers), x);
    }
  }

  ghost predicate SomeEcho(frames: seq<RespType>) {
    exists i :: 0 <= i < |frames| && EchoesLineEnd(frames[i])
  }

  ghost predicate AllDecodable(answers: seq<Answer>) {
    forall i :: 0 <= i < |answers| ==> LineSafe(AnswerValue(answers[i]))
  }

  ghost predicate AnswersValid(answers: seq<Answer>) {
    forall i :: 0 <= i < |answers| ==> ValidText(AnswerValue(answers[i]))
  }

  /**
   The session is sound, the answers are valid text, and they can be decoded exactly if no frame so far
   echoed a line end.
   */
  ghost predicate Tracked(c: Conn) {
    && TxValid(c.session.tx) && SoundSession(c.session) && AnswersValid(c.answers)
    && (AllDecodable(c.answers) <==> !SomeEcho(c.frames))
  }

  lemma DecodableSnoc(answers: seq<Answer>, a: Answer)
    ensures AllDecodable(answers + [a]) <==> AllDecodable(answers) && LineSafe(AnswerValue(a))
    ensures AnswersValid(answers + [a]) <==> AnswersValid(answers) && ValidText(AnswerValue(a))
  {
    hide LineSafe, ValidText;
    var all := answers + [a];
    assert all[|answers|] == a && forall i :: 0 <= i < |answers| ==> all[i] == answers[i];
  }

  lemma EchoSnoc(frames: seq<RespType>, f: RespType)
    ensures SomeEcho(frames + [f]) <==> SomeEcho(frames) || EchoesLineEnd(f)
  {
    hide EchoesLineEnd;
    var all := frames + [f];
    assert all[|frames|] == f && forall i :: 0 <= i < |frames| ==> all[i] == frames[i];
  }

  /** A frame that ends the connection has a known name, so it echoes nothing. */
  lemma PanicsQuietly(frame: RespType)
    requires Panics(frame)
    ensures !EchoesLineEnd(frame)
  {
    var text := frame.items[0].text;
    UpperLines(text);
    KnownHasNoLineEnd(Upper(text));
  }

  lemma ConsumeTracked(c: Conn, frame: RespType, rest: Bytes, clock: Clock)
    requires Tracked(c) && ValidText(frame)
    ensures Tracked(Consume(c, frame, rest, clock))
  {
    hide ServeFrame, SoundSession, AnswersValid, AllDecodable, SomeEcho, EchoesLineEnd, Panics;
    DiesExactly(c.session, frame, clock);
    AnswerDecodesExactly(c.session, frame, clock);
    EchoSnoc(c.frames, frame);
    var r := ServeFrame(c.session, frame, clock);
    if r.Served? {
      DecodableSnoc(c.answers, r.answer);
    } else {
      PanicsQuietly(frame);
    }
  }

  lemma MalformedTracked(c: Conn, msg: Bytes)
    requires Tracked(c) && Printable(msg)
    ensures Tracked(c.(buf := [], answers := c.answers + [Malformed(msg)]))
  {
    hide SoundSession, AnswersValid, AllDecodable, SomeEcho, Utf8.Valid;
    PrintableText(msg);
    DecodableSnoc(c.answers, Malformed(msg));
  }

  lemma {:induction false} DrainTracked(c: Conn, clock: Clock)
    requires Tracked(c)
    ensures Tracked(Drain(c, clock))
    decreases |c.buf|
  {
    hide Parse, Drain, Consume, SoundSession, AnswersValid, AllDecodable, SomeEcho;
    if !c.alive || c.buf == [] {
      DrainStops(c, clock);
    } else {
      DrainStep(c, clock);
      match Parse(c.buf)
      case Ok(v, n) =>
        ParseValid(c.buf);
        ConsumeShrinks(c, v, n, clock);
        ConsumeTracked(c, v, c.buf[n..], clock);
        DrainTracked(Consume(c, v, c.buf[n..], clock), clock);
      case Invalid(msg) =>
        ParseMessage(c.buf);
        MalformedTracked(c, msg);
      case _ =>
    }
  }

  lemma {:induction false} ReceiveTracked(c: Conn, chunks: seq<Bytes>, clock: Clock)
    requires Tracked(c)
    ensures Tracked(ReceiveAll(c, chunks, clock))
    decreases |chunks|
  {
    hide Drain, SoundSession, AnswersValid, AllDecodable, SomeEcho;
    if chunks != [] {
      var before := ReceiveAll(c, chunks[..|chunks| - 1], clock);
      ReceiveTracked(c, chunks[..|chunks| - 1], clock);
      if before.alive {
        DrainTracked(before.(buf := before.buf + chunks[|chunks| - 1]), clock);
      }
    }
  }

  /**
   Whatever bytes arrive, in whatever pieces: what the server writes on the connection decodes to its
   answers if and only if no frame it consumed had a line end in its command name. That the answers are
   valid UTF-8 is a consequence; that they fit in memory is assumed.
   */
  lemma ConnectionDecodesExactly(st: Session, chunks: seq<Bytes>, clock: Clock, x: Bytes)
    requires TxValid(st.tx) && SoundSession(st)
    requires var c := ReceiveAll(Conn([], st, [], [], true), chunks, clock);
      forall i :: 0 <= i < |c.answers| ==> Sized(AnswerValue(c.answers[i]))
    ensures var c := ReceiveAll(Conn([], st, [], [], true), chunks, clock);
      var r := ParseElements(AnswersWire(c.answers) + x, |c.answers|);
      (r.Elements? && r.values == NormaliseAll(Values(c.answers))) <==> !SomeEcho(c.frames)
  {
    hide ReceiveAll, ParseElements, NormaliseAll, AnswersWire, SoundSession, SomeEcho;
    hide AllWellFormed, AllLineSafe, LineSafe, ValidText, Sized;
    var start := Conn([], st, [], [], true);
    StartTracked(start);
    ReceiveTracked(start, chunks, clock);
    var answers := ReceiveAll(start, chunks, clock).answers;
    AllWellFormedParts(Values(answers));
    AllLineSafeMeans(Values(answers));
    RepliesDecode(answers, x);
  }

  lemma StartTracked(c: Conn)
    requires TxValid(c.session.tx) && SoundSession(c.session) && c.frames == [] && c.answers == []
    ensures Tracked(c)
  {
  }

  /** The condition is needed: the name CRLF alone makes such a frame, in every session. */
  lemma UnknownCommandSplitsReply(st: Session, clock: Clock)
    requires TxValid(st.tx) && SoundSession(st)
    ensures var r := ServeFrame(st, Array([BulkString(CRLF)]), clock);
      r.Served? && !LineSafe(AnswerValue(r.answer))
  {
    hide ServeFrame, SoundSession, LineSafe;
    var frame := Array([BulkString(CRLF)]);
    Utf8.AsciiValid(CRLF);
    assert CrlfAt(CRLF, 0);
    assert EchoesLineEnd(frame);
    if Panics(frame) {
      PanicsQuietly(frame);
    }
    AnswerDecodesExactly(st, frame, clock);
  }

  // ---- What is written ----

  /** The bytes of replies one after another. */
  function RepliesBytes(answers: seq<Answer>): Bytes {
    if answers == [] then [] else ReplyBytes(answers[0]) + RepliesBytes(answers[1..])
  }

  lemma {:induction false} WrittenBytes(before: seq<Answer>, more: seq<Answer>)
    ensures AnswersWire(before + more) == AnswersWire(before) + RepliesBytes(more)
    decreases |more|
  {
    hide AnswersWire, ReplyBytes;
    if more == [] {
      assert before + more == before;
    } else {
      AnswersSnoc(before, more[0]);
      assert before + more == before + [more[0]] + more[1..];
      WrittenBytes(before + [more[0]], more[1..]);
    }
  }

  /** The answers of a drain: one for each frame served, and one more when it comes upon malformed bytes. */
  ghost predicate Drained(c: Conn, end: Conn, more: seq<Answer>, invalid: bool) {
    && end.answers == c.answers + more
    && if invalid then
         && more != [] && more[|more| - 1].Malformed?
         && (exists k: nat :: k <= |c.buf| && Parse(c.buf[k..]) == Invalid(more[|more| - 1].msg))
         && forall i :: 0 <= i < |more| - 1 ==> !more[i].Malformed?
       else forall i :: 0 <= i < |more| ==> !more[i].Malformed?
  }

  lemma DrainedOne(c: Conn, next: Conn, end: Conn, more: seq<Answer>, n: nat, invalid: bool)
    requires n <= |c.buf| && next.buf == c.buf[n..] && Drained(next, end, more, invalid)
    requires |next.answers| == |c.answers| + 1 && next.answers == c.answers + [next.answers[|c.answers|]]
    requires !next.answers[|c.answers|].Malformed?
    ensures Drained(c, end, [next.answers[|c.answers|]] + more, invalid)
  {
    hide Parse;
    var a := next.answers[|c.answers|];
    assert c.answers + [a] + more == c.answers + ([a] + more);
    if invalid {
      var k: nat :| k <= |next.buf| && Parse(next.buf[k..]) == Invalid(more[|more| - 1].msg);
      assert c.buf[n + k..] == next.buf[k..];
    }
  }

  /** Malformed bytes are answered exactly once, with the parser's complaint, after the frames before them. */
  lemma {:induction false} DrainAnswers(c: Conn, clock: Clock) returns (more: seq<Answer>)
    requires TxValid(c.session.tx)
    ensures Drained(c, Drain(c, clock), more, HitsInvalid(c, clock))
    decreases |c.buf|
  {
    hide Parse, Drain, Consume, HitsInvalid;
    more := [];
    assert c.answers + [] == c.answers && c.buf[0..] == c.buf;
    if !c.alive || c.buf == [] {
      DrainStops(c, clock);
      HitsNot(c, clock);
    } else {
      DrainStep(c, clock);
      HitsStep(c, clock);
      match Parse(c.buf)
      case Ok(v, n) =>
        var next := Consume(c, v, c.buf[n..], clock);
        ConsumeShrinks(c, v, n, clock);
        ConsumeAnswers(c, v, c.buf[n..], clock);
        if next.alive {
          var rest := DrainAnswers(next, clock);
          DrainedOne(c, next, Drain(next, clock), rest, n, HitsInvalid(next, clock));
          more := [next.answers[|c.answers|]] + rest;
        } else {
          DrainStops(next, clock);
          HitsNot(next, clock);
        }
      case Invalid(msg) => more := [Malformed(msg)];
      case _ =>
    }
  }

  lemma ConsumeAnswers(c: Conn, frame: RespType, rest: Bytes, clock: Clock)
    requires TxValid(c.session.tx) && c.alive
    ensures var next, r := Consume(c, frame, rest, clock), ServeFrame(c.session, frame, clock);
      if r.Served? then next.alive && next.buf == rest && next.answers == c.answers + [r.answer] && !r.answer.Malformed?
      else !next.alive && next.answers == c.answers
  {
    hide ServeFrame;
  }

  /** What one read makes the server write: the bytes of the new answers, errors as errors. */
  lemma ReceiveWrites(c: Conn, chunk: Bytes, clock: Clock) returns (more: seq<Answer>)
    requires TxValid(c.session.tx) && c.alive
    ensures Drained(With(c, chunk), Receive(c, chunk, clock), more, HitsInvalid(With(c, chunk), clock))
    ensures AnswersWire(Receive(c, chunk, clock).answers) == AnswersWire(c.answers) + RepliesBytes(more)
  {
    hide Drain, HitsInvalid, AnswersWire, RepliesBytes, Parse;
    more := DrainAnswers(With(c, chunk), clock);
    WrittenBytes(c.answers, more);
  }

  /** A command nobody knows: the server writes a minus, the complaint with the name, and a line end. */
  lemma UnknownCommandAnswered(st: Session, name: Bytes, args: seq<Bytes>, clock: Clock)
    requires TxValid(st.tx) && !KnownName(Upper(name)) && FitsVec(|args| + 1)
    requires forall i :: 0 <= i < |args| + 1 ==> Utf8.Valid(([name] + args)[i]) && |([name] + args)[i]| <= ISIZE_MAX
    ensures var c := Receive(Conn([], st, [], [], true), Wire(Array(Bulks([name] + args))), clock);
      AnswersWire(c.answers) == [45] + (Ascii("Unknown command: ") + Upper(name)) + CRLF
  {
    hide Wire, Parse, ServeFrame, KnownName, Drain, AnswersWire, ReplyBytes;
    var frame, start := Array(Bulks([name] + args)), Conn([], st, [], [], true);
    BulksClean([name] + args);
    RoundTrip(frame, []);
    var w := Wire(frame);
    assert w + [] == w && [] + w == w && w[|w|..] == [];
    UnknownServed(st, frame, name, clock);
    ReceiveIsDrain(start, w, clock);
    DrainStep(With(start, w), clock);
    ConsumeAnswers(With(start, w), frame, [], clock);
    var next := Consume(With(start, w), frame, [], clock);
    DrainStops(next, clock);
    UnknownBytes(Ascii("Unknown command: ") + Upper(name));
  }

  lemma UnknownBytes(msg: Bytes)
    ensures AnswersWire([] + [Refused(msg)]) == [45] + msg + CRLF
  {
    AnswersSnoc([], Refused(msg));
  }

  lemma UnknownServed(st: Session, frame: RespType, name: Bytes, clock: Clock)
    requires TxValid(st.tx) && frame.Array? && frame.items != [] && frame.items[0] == BulkString(name)
    requires !KnownName(Upper(name))
    ensures ServeFrame(st, frame, clock) ==
      Served(st.(tick := st.tick + 1), Refused(Ascii("Unknown command: ") + Upper(name)))
  {
    hide ParseCommand, KnownName, Dispatch;
    UnknownName(Upper(name), frame.items[1..], clock(st.tick));
  }
}
