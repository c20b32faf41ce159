/** Which frames stand for which requests, whatever the case of their words and whatever else they carry. */
module CommandGrammar {
  import opened ByteStrings
  import opened RespTypes
  import opened Commands
  import opened Requests
  import opened Replies
  import S = Store
  import Decimal
  import Utf8

  predicate TextAt(args: seq<RespType>, i: nat, t: Bytes) {
    i < |args| && args[i] == BulkString(t)
  }

  /** A flag in any mix of cases and a number behind key and value. */
  ghost predicate TimedBy(args: seq<RespType>, flag: string, n: int) {
    exists f, t :: TextAt(args, 2, f) && TextAt(args, 3, t) && Upper(f) == Ascii(flag) && n == ParseInt(t)
  }

  ghost predicate AsksTtl(args: seq<RespType>, ttl: Ttl) {
    match ttl
    case Forever => |args| < 4
    case Px(n) => TimedBy(args, "PX", n)
    case Ex(n) => TimedBy(args, "EX", n)
  }

  ghost predicate AsksRange(args: seq<RespType>, k: S.Key, a: int, z: int) {
    exists s, t ::
      TextAt(args, 0, k) && TextAt(args, 1, s) && TextAt(args, 2, t) && a == ParseInt(s) && z == ParseInt(t)
  }

  /** An option, if there is a third argument, is one of the four. */
  ghost predicate AsksExpire(args: seq<RespType>, k: S.Key, ms: int, o: Option<Bytes>) {
    exists t :: TextAt(args, 0, k) && TextAt(args, 1, t) && ms == ParseInt(t) &&
      match o
      case None => |args| == 2
      case Some(x) => TextAt(args, 2, x) && x in [Ascii("NX"), Ascii("XX"), Ascii("GT"), Ascii("LT")]
  }

  /** The name in capitals and the arguments ask for the request. Arguments beyond those needed are ignored. */
  ghost predicate Asks(name: Bytes, args: seq<RespType>, r: Request) {
    match r
    case Ping => name == Ascii("PING") || name == Ascii("COMMAND")
    case Echo(m) => name == Ascii("ECHO") && TextAt(args, 0, m)
    case Set(k, v, ttl) => name == Ascii("SET") && TextAt(args, 0, k) && TextAt(args, 1, v) && AsksTtl(args, ttl)
    case Get(k) => name == Ascii("GET") && TextAt(args, 0, k)
    case Delete(k) => name == Ascii("DELETE") && TextAt(args, 0, k)
    case LPush(k, vs) => name == Ascii("LPUSH") && TextAt(args, 0, k) && vs == Texts(args[1..])
    case RPush(k, vs) => name == Ascii("RPUSH") && TextAt(args, 0, k) && vs == Texts(args[1..])
    case LRange(k, a, z) => name == Ascii("LRANGE") && AsksRange(args, k, a, z)
    case Expire(k, ms, o) => name == Ascii("EXPIRE") && AsksExpire(args, k, ms, o)
    case Multi => name == Ascii("MULTI")
    case Discard => name == Ascii("DISCARD")
    case Exec => name == Ascii("EXEC")
    case Save => name == Ascii("SAVE")
  }

  /** An array that starts with a bulk string, the name in any mix of cases. */
  ghost predicate Asked(frame: RespType, r: Request) {
    && frame.Array? && frame.items != [] && frame.items[0].BulkString?
    && Asks(Upper(frame.items[0].text), frame.items[1..], r)
  }

  // ---- Arguments ----

  lemma SetAsked(args: seq<RespType>, k: S.Key, v: Bytes, ttl: Ttl, now: S.Instant)
    requires TextAt(args, 0, k) && TextAt(args, 1, v) && AsksTtl(args, ttl)
    ensures ParseSet(args, now) == Cmd(Yielded(Set(k, v, ttl), now))
  {
    hide ParseInt, Upper, Ascii, Later, S.Wrap32;
    Flags();
  }

  lemma SetAsks(args: seq<RespType>, now: S.Instant) returns (r: Request)
    requires ParseSet(args, now).Cmd?
    ensures r.Set? && TextAt(args, 0, r.key) && TextAt(args, 1, r.value) && AsksTtl(args, r.ttl)
    ensures ParseSet(args, now).cmd == Yielded(r, now)
  {
    hide ParseInt, Upper, Ascii, Later, S.Wrap32;
    Flags();
    var ttl := Forever;
    if |args| >= 4 {
      var n := ParseInt(args[3].text);
      ttl := if Upper(args[2].text) == Ascii("EX") then Ex(n) else Px(n);
      assert TextAt(args, 2, args[2].text) && TextAt(args, 3, args[3].text);
    }
    r := Set(args[0].text, args[1].text, ttl);
  }

  lemma RangeAsked(args: seq<RespType>, k: S.Key, a: int, z: int)
    requires AsksRange(args, k, a, z)
    ensures ParseLRange(args) == Cmd(LRANGE(k, a, z)) && Read(a) == a && Read(z) == z
  {
    hide Ascii;
  }

  lemma RangeAsks(args: seq<RespType>)
    requires ParseLRange(args).Cmd?
    ensures var c := ParseLRange(args).cmd;
      c.LRANGE? && AsksRange(args, c.key, c.start, c.stop) && Read(c.start) == c.start && Read(c.stop) == c.stop
  {
    hide Ascii;
    assert TextAt(args, 1, args[1].text) && TextAt(args, 2, args[2].text);
  }

  lemma ExpireAsked(args: seq<RespType>, k: S.Key, ms: int, o: Option<Bytes>, now: S.Instant)
    requires AsksExpire(args, k, ms, o)
    ensures ParseExpire(args, now) == Cmd(Yielded(Expire(k, ms, o), now))
  {
    hide ParseInt, Later, Ascii;
    Options();
  }

  lemma Options()
    ensures Ascii("NX") == S.NX && Ascii("XX") == S.XX && Ascii("GT") == S.GT && Ascii("LT") == S.LT
  {
  }

  lemma ExpireAsks(args: seq<RespType>, now: S.Instant) returns (r: Request)
    requires ParseExpire(args, now).Cmd?
    ensures r.Expire? && AsksExpire(args, r.key, r.ms, r.option) && ParseExpire(args, now).cmd == Yielded(r, now)
  {
    hide ParseInt, Later, Ascii;
    Options();
    assert TextAt(args, 1, args[1].text);
    r := Expire(args[0].text, ParseInt(args[1].text), if |args| == 2 then None else Some(args[2].text));
  }

  // ---- Names ----

  lemma PlainAsked(name: Bytes, args: seq<RespType>, r: Request, now: S.Instant)
    requires Asks(name, args, r) && !r.Set? && !r.LRange? && !r.Expire? && !r.LPush? && !r.RPush?
    ensures ParseCommand(name, args, now) == Cmd(Yielded(r, now))
  {
    hide ParseSet, ParseLRange, ParseExpire, Texts, Ascii;
    Letters();
  }

  lemma PushAsked(name: Bytes, args: seq<RespType>, r: Request, now: S.Instant)
    requires Asks(name, args, r) && (r.LPush? || r.RPush?)
    ensures ParseCommand(name, args, now) == Cmd(Yielded(r, now))
  {
    hide ParseSet, ParseLRange, ParseExpire, Texts, Ascii;
    Letters();
  }

  lemma ParsedBy(args: seq<RespType>, now: S.Instant)
    ensures ParseCommand(Ascii("SET"), args, now) == ParseSet(args, now)
    ensures ParseCommand(Ascii("LRANGE"), args, now) == ParseLRange(args)
    ensures ParseCommand(Ascii("EXPIRE"), args, now) == ParseExpire(args, now)
  {
    hide ParseSet, ParseLRange, ParseExpire, Texts, OneArg, Ascii;
    Letters();
  }

  /** What is asked for is extracted. */
  lemma AskedIsExtracted(name: Bytes, args: seq<RespType>, r: Request, now: S.Instant)
    requires Asks(name, args, r)
    ensures ParseCommand(name, args, now) == Cmd(Yielded(r, now))
  {
    hide ParseCommand, ParseSet, ParseLRange, ParseExpire, Texts, Ascii, AsksTtl, AsksRange, AsksExpire;
    ParsedBy(args, now);
    match r
    case Set(k, v, ttl) => SetAsked(args, k, v, ttl, now);
    case LRange(k, a, z) => RangeAsked(args, k, a, z);
    case Expire(k, ms, o) => ExpireAsked(args, k, ms, o, now);
    case LPush(_, _) => PushAsked(name, args, r, now);
    case RPush(_, _) => PushAsked(name, args, r, now);
    case _ => PlainAsked(name, args, r, now);
  }

  lemma KeyedAsks(name: Bytes, args: seq<RespType>, now: S.Instant) returns (r: Request)
    requires name in [Ascii("ECHO"), Ascii("GET"), Ascii("DELETE"), Ascii("LPUSH"), Ascii("RPUSH")]
    requires ParseCommand(name, args, now).Cmd?
    ensures Asks(name, args, r) && ParseCommand(name, args, now).cmd == Yielded(r, now)
  {
    hide ParseSet, ParseLRange, ParseExpire, Texts, Ascii;
    Letters();
    var t := args[0].text;
    r := if name == Ascii("ECHO") then Echo(t) else if name == Ascii("GET") then Get(t)
         else if name == Ascii("DELETE") then Delete(t)
         else if name == Ascii("LPUSH") then LPush(t, Texts(args[1..])) else RPush(t, Texts(args[1..]));
  }

  lemma BareAsks(name: Bytes, args: seq<RespType>, now: S.Instant) returns (r: Request)
    requires KnownName(name)
    requires name !in [Ascii("ECHO"), Ascii("GET"), Ascii("DELETE"), Ascii("LPUSH"), Ascii("RPUSH")]
    requires name !in [Ascii("SET"), Ascii("LRANGE"), Ascii("EXPIRE")]
    ensures Asks(name, args, r) && ParseCommand(name, args, now) == Cmd(Yielded(r, now))
  {
    hide ParseSet, ParseLRange, ParseExpire, Texts, Ascii, OneArg;
    Letters();
    r := if name == Ascii("MULTI") then Multi else if name == Ascii("DISCARD") then Discard
         else if name == Ascii("EXEC") then Exec else if name == Ascii("SAVE") then Save else Ping;
  }

  /** What is extracted was asked for. */
  lemma ExtractedIsAsked(name: Bytes, args: seq<RespType>, now: S.Instant) returns (r: Request)
    requires ParseCommand(name, args, now).Cmd?
    ensures Asks(name, args, r) && ParseCommand(name, args, now).cmd == Yielded(r, now)
  {
    hide ParseCommand, ParseSet, ParseLRange, ParseExpire, Texts, Ascii, AsksTtl, AsksRange, AsksExpire;
    ParsedBy(args, now);
    if !KnownName(name) {
      UnknownName(name, args, now);
    }
    if name == Ascii("SET") {
      r := SetAsks(args, now);
    } else if name == Ascii("LRANGE") {
      RangeAsks(args);
      var c := ParseLRange(args).cmd;
      r := LRange(c.key, c.start, c.stop);
    } else if name == Ascii("EXPIRE") {
      r := ExpireAsks(args, now);
    } else if name in [Ascii("ECHO"), Ascii("GET"), Ascii("DELETE"), Ascii("LPUSH"), Ascii("RPUSH")] {
      r := KeyedAsks(name, args, now);
    } else {
      r := BareAsks(name, args, now);
    }
  }

  /** Extraction yields a command exactly when the frame asks for a request that stands for it. */
  lemma ExtractionExactly(frame: RespType, c: Command, now: S.Instant)
    ensures ExtractCommand(frame, now) == Cmd(c) <==> exists r :: Asked(frame, r) && c == Yielded(r, now)
  {
    hide ParseCommand, Yielded, Asks;
    if ExtractCommand(frame, now) == Cmd(c) {
      var r := ExtractedIsAsked(Upper(frame.items[0].text), frame.items[1..], now);
      assert Asked(frame, r);
    }
    forall r | Asked(frame, r) && c == Yielded(r, now) ensures ExtractCommand(frame, now) == Cmd(c) {
      AskedIsExtracted(Upper(frame.items[0].text), frame.items[1..], r, now);
    }
  }

  /** A frame that asks for nothing is refused, or ends the connection. */
  lemma RefusedExactly(frame: RespType, now: S.Instant)
    ensures ExtractCommand(frame, now).Bad? <==> !Panics(frame) && !exists r :: Asked(frame, r)
  {
    hide ParseCommand, Yielded, Asks, Panics;
    CrashesByFrame(frame, now);
    var e := ExtractCommand(frame, now);
    if e.Cmd? {
      ExtractionExactly(frame, e.cmd, now);
    }
    forall r | Asked(frame, r) ensures e.Cmd? {
      ExtractionExactly(frame, Yielded(r, now), now);
    }
  }

  lemma CrashesByFrame(frame: RespType, now: S.Instant)
    ensures ExtractCommand(frame, now).Crash? <==> Panics(frame)
  {
    hide ParseCommand;
    if frame.Array? && frame.items != [] && frame.items[0].BulkString? {
      CrashesExactly(Upper(frame.items[0].text), frame.items[1..], now);
    }
  }

  predicate TwoTexts(args: seq<RespType>, i: nat) {
    i + 1 < |args| && args[i].BulkString? && args[i + 1].BulkString?
  }

  function SetRefusal(args: seq<RespType>): Bytes {
    if |args| < 2 then Ascii("SET command requires two arguments.")
    else if !TwoTexts(args, 0) then Ascii("SET arguments must be bulk strings.")
    else if TwoTexts(args, 2) then Ascii("Invalid expiry flag. Only EX and PX are supported.")
    else Ascii("Invalid SET command format for expiry. Expected EX or PX followed by expiry time.")
  }

  function ExpireRefusal(args: seq<RespType>): Bytes {
    if !TwoTexts(args, 0) then Ascii("EXPIRE command requires an argument.")
    else if TwoTexts(args, 1) then Ascii("Invalid option in expire command. Only NX, XX, GT, LT are supported.")
    else Ascii("Invalid option format in expire command. Expected a bulk string.")
  }

  /** Why a command is refused. */
  function Refusal(name: Bytes, args: seq<RespType>): Bytes {
    if name == Ascii("SET") then SetRefusal(args)
    else if name == Ascii("EXPIRE") then ExpireRefusal(args)
    else if name == Ascii("ECHO") then Ascii("ECHO command requires an argument.")
    else if name == Ascii("GET") then Ascii("GET command requires an argument.")
    else if name == Ascii("DELETE") then Ascii("DELETE command requires an argument.")
    else if name == Ascii("LPUSH") then Ascii("LPUSH command requires an argument.")
    else if name == Ascii("RPUSH") then Ascii("RPUSH command requires an argument.")
    else if name == Ascii("LRANGE") then Ascii("LRANGE command requires an argument.")
    else Ascii("Unknown command: ") + name
  }

  /** The message of every refusal. */
  lemma RefusalExactly(frame: RespType, now: S.Instant)
    requires ExtractCommand(frame, now).Bad?
    ensures ExtractCommand(frame, now).msg ==
      if frame.Array? && frame.items != [] && frame.items[0].BulkString? then
        Refusal(Upper(frame.items[0].text), frame.items[1..])
      else Ascii("Invalid command format.")
  {
    hide ParseCommand, Refusal;
    if frame.Array? && frame.items != [] && frame.items[0].BulkString? {
      CommandRefused(Upper(frame.items[0].text), frame.items[1..], now);
    }
  }

  lemma SetRefused(args: seq<RespType>, now: S.Instant)
    ensures ParseSet(args, now).Bad? ==> ParseSet(args, now).msg == SetRefusal(args)
  {
    hide Ascii, ParseInt, Upper, Later;
  }

  lemma ExpireRefused(args: seq<RespType>, now: S.Instant)
    ensures ParseExpire(args, now).Bad? ==> ParseExpire(args, now).msg == ExpireRefusal(args)
  {
    hide Ascii, ParseInt, Later;
  }

  lemma RangeRefused(args: seq<RespType>)
    ensures ParseLRange(args).Bad? ==> ParseLRange(args).msg == Ascii("LRANGE command requires an argument.")
  {
    hide Ascii, ParseInt;
  }

  lemma CommandRefused(name: Bytes, args: seq<RespType>, now: S.Instant)
    requires ParseCommand(name, args, now).Bad?
    ensures ParseCommand(name, args, now).msg == Refusal(name, args)
  {
    hide Ascii, Texts, ParseSet, ParseExpire, ParseLRange, SetRefusal, ExpireRefusal;
    SetRefused(args, now);
    ExpireRefused(args, now);
    RangeRefused(args);
    Letters();
  }

  /** The arguments of a push are its bulk strings in order; anything else is skipped. */
  lemma {:induction false} TextsAppend(a: seq<RespType>, v: RespType)
    ensures Texts(a + [v]) == Texts(a) + (if v.BulkString? then [v.text] else [])
    decreases |a|
  {
    if a == [] {
      assert a + [v] == [v] && [v][1..] == [];
    } else {
      var all := a + [v];
      assert all[0] == a[0] && all[1..] == a[1..] + [v];
      TextsAppend(a[1..], v);
      assert Texts(all) == (if a[0].BulkString? then [a[0].text] else []) + Texts(all[1..]);
    }
  }

  // ---- Numbers ----

  /** A 32-bit numeral with white space around it. */
  ghost predicate Numeric(s: Bytes, n: int) {
    exists p, d, q :: Spaced(s, p, d, q) && Decimal.ParseSigned(d, I32_MIN, I32_MAX) == Some(n)
  }

  predicate Spaced(s: Bytes, p: Bytes, d: Bytes, q: Bytes) {
    s == p + d + q && Utf8.AllSpace(p) && Utf8.AllSpace(q)
  }

  /** One white-space character. */
  lemma OneSpace(c: Bytes)
    requires Utf8.IsSpace(c)
    ensures c != [] && Utf8.CharLen(c) == |c| && c[..|c|] == c && Utf8.AllSpace(c)
  {
    assert c[|c|..] == [];
  }

  lemma SpacesCons(c: Bytes, p: Bytes)
    requires Utf8.IsSpace(c) && Utf8.AllSpace(p)
    ensures Utf8.AllSpace(c + p)
  {
    hide Utf8.CharLen, Utf8.IsSpace;
    OneSpace(c);
    Utf8.HeadStable(c, p);
    assert (c + p)[|c|..] == p;
  }

  lemma {:induction false} TrimStartSplits(s: Bytes) returns (p: Bytes)
    ensures Utf8.AllSpace(p) && s == p + TrimStart(s)
    decreases |s|
  {
    hide Utf8.CharLen, Utf8.IsSpace;
    p := [];
    if Utf8.SpaceAhead(s) && Utf8.CharLen(s) > 0 {
      var n := Utf8.CharLen(s);
      var more := TrimStartSplits(s[n..]);
      SpacesCons(s[..n], more);
      p := s[..n] + more;
      assert s == s[..n] + s[n..];
    }
  }

  lemma {:induction false} TrimEndSplits(s: Bytes) returns (q: Bytes)
    ensures Utf8.AllSpace(q) && s == TrimEnd(s) + q
    decreases |s|
  {
    hide Utf8.CharLen, Utf8.IsSpace, Utf8.AllSpace;
    NoSpaces();
    q := [];
    if n: nat :| 1 <= n <= 3 && SpaceBehind(s, n) && (forall m: nat :: 1 <= m < n ==> !SpaceBehind(s, m)) {
      var init, c := s[..|s| - n], s[|s| - n..];
      var more := TrimEndSplits(init);
      q := more + c;
      SpacesSnoc(more, c);
      assert s == init + c;
    }
  }

  lemma NoSpaces()
    ensures Utf8.AllSpace([])
  {
  }

  lemma {:induction false} SpacesSnoc(p: Bytes, c: Bytes)
    requires Utf8.AllSpace(p) && Utf8.IsSpace(c)
    ensures Utf8.AllSpace(p + c)
    decreases |p|
  {
    hide Utf8.CharLen, Utf8.IsSpace;
    if p == [] {
      OneSpace(c);
      assert p + c == c;
    } else {
      var n := Utf8.CharLen(p);
      SpacesSnoc(p[n..], c);
      Utf8.HeadStable(p, c);
    }
  }

  /** The last character of white space. */
  lemma {:induction false} LastSpace(q: Bytes) returns (init: Bytes, c: Bytes)
    requires q != [] && Utf8.AllSpace(q)
    ensures q == init + c && Utf8.AllSpace(init) && Utf8.IsSpace(c)
    decreases |q|
  {
    hide Utf8.CharLen, Utf8.IsSpace;
    var n := Utf8.CharLen(q);
    if q[n..] == [] {
      init, c := [], q[..n];
      assert q == init + c;
    } else {
      var more;
      more, c := LastSpace(q[n..]);
      init := q[..n] + more;
      SpacesCons(q[..n], more);
      assert q == q[..n] + q[n..];
    }
  }

  /** No part of a longer white-space character is one itself. */
  lemma SpaceTails(c: Bytes)
    requires Utf8.IsSpace(c)
    ensures 1 <= |c| <= 3
    ensures |c| >= 2 ==> !Utf8.IsSpace(c[|c| - 1..])
    ensures |c| == 3 ==> !Utf8.IsSpace(c[1..])
  {
  }

  lemma TrimOne(s: Bytes, c: Bytes)
    requires Utf8.IsSpace(c)
    ensures TrimEnd(s + c) == TrimEnd(s)
  {
    hide Utf8.IsSpace;
    SpaceTails(c);
    var w := s + c;
    assert w[|w| - 1..] == c[|c| - 1..] && w[|w| - |c|..] == c && w[..|w| - |c|] == s;
    if |c| == 3 {
      assert w[|w| - 2..] == c[1..];
    }
  }

  lemma {:induction false} TrimEndSpaces(d: Bytes, q: Bytes)
    requires Utf8.AllSpace(q)
    ensures TrimEnd(d + q) == TrimEnd(d)
    decreases |q|
  {
    hide Utf8.AllSpace, Utf8.IsSpace;
    if q == [] {
      assert d + q == d;
    } else {
      hide TrimEnd;
      var init, c := LastSpace(q);
      assert d + q == d + init + c;
      TrimOne(d + init, c);
      assert |init| < |q| by { OneSpace(c); }
      TrimEndSpaces(d, init);
    }
  }

  lemma {:induction false} TrimStartSpaces(p: Bytes, s: Bytes)
    requires Utf8.AllSpace(p)
    ensures TrimStart(p + s) == TrimStart(s)
    decreases |p|
  {
    hide Utf8.CharLen, Utf8.IsSpace;
    if p == [] {
      assert p + s == s;
    } else {
      Utf8.HeadStable(p, s);
      TrimStartSpaces(p[Utf8.CharLen(p)..], s);
    }
  }

  lemma NumeralBytes(d: Bytes)
    requires Decimal.ParseSigned(d, I32_MIN, I32_MAX).Some?
    ensures d != [] && forall i :: 0 <= i < |d| ==> 43 <= d[i] <= 57
  {
    var digits := if d != [] && (d[0] == 43 || d[0] == 45) then d[1..] else d;
    assert forall i :: 0 < i < |d| && digits == d[1..] ==> digits[i - 1] == d[i];
  }

  lemma NoTrimStart(d: Bytes, q: Bytes)
    requires d != [] && 43 <= d[0] <= 57
    ensures TrimStart(d + q) == d + q
  {
    assert (d + q)[0] == d[0];
  }

  lemma NumericTrims(s: Bytes, p: Bytes, d: Bytes, q: Bytes)
    requires Spaced(s, p, d, q) && Decimal.ParseSigned(d, I32_MIN, I32_MAX).Some?
    ensures TrimEnd(TrimStart(s)) == d
  {
    hide Utf8.AllSpace, TrimStart, TrimEnd, Decimal.ParseSigned;
    NumeralBytes(d);
    assert s == p + (d + q);
    TrimStartSpaces(p, d + q);
    NoTrimStart(d, q);
    TrimEndSpaces(d, q);
    NoTrimEnd(d);
  }

  /** A number is read exactly when the text is its numeral with white space around it; other texts count as zero. */
  lemma ParseIntExactly(s: Bytes, n: int)
    ensures ParseInt(s) == n <==> Numeric(s, n) || (n == 0 && !exists m :: Numeric(s, m))
  {
    hide Utf8.AllSpace, TrimStart, TrimEnd, Decimal.ParseSigned;
    var d := TrimEnd(TrimStart(s));
    var p := TrimStartSplits(s);
    var q := TrimEndSplits(TrimStart(s));
    assert s == p + d + q;
    assert Spaced(s, p, d, q);
    var v := Decimal.ParseSigned(d, I32_MIN, I32_MAX);
    if v.Some? {
      assert Numeric(s, v.value);
    }
    forall m | Numeric(s, m) ensures v == Some(m) {
      var x, y, z :| Spaced(s, x, y, z) && Decimal.ParseSigned(y, I32_MIN, I32_MAX) == Some(m);
      NumericTrims(s, x, y, z);
    }
  }
}
