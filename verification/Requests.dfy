/** What a client sends for each command, what the server extracts from it, and when that is what was meant. */
module Requests {
  import opened ByteStrings
  import opened RespTypes
  import opened RespParser
  import opened Commands
  import S = Store
  import Decimal
  import Utf8

  datatype Ttl = Forever | Px(ms: int) | Ex(secs: int)

  datatype Request =
    | Ping
    | Echo(msg: Bytes)
    | Set(key: S.Key, value: Bytes, ttl: Ttl)
    | Get(key: S.Key)
    | Delete(key: S.Key)
    | LPush(key: S.Key, vals: seq<Bytes>)
    | RPush(key: S.Key, vals: seq<Bytes>)
    | LRange(key: S.Key, start: int, stop: int)
    | Expire(key: S.Key, ms: int, option: Option<Bytes>)
    | Multi
    | Discard
    | Exec
    | Save

  function Name(r: Request): Bytes {
    match r
    case Ping => Ascii("PING")
    case Echo(_) => Ascii("ECHO")
    case Set(_, _, _) => Ascii("SET")
    case Get(_) => Ascii("GET")
    case Delete(_) => Ascii("DELETE")
    case LPush(_, _) => Ascii("LPUSH")
    case RPush(_, _) => Ascii("RPUSH")
    case LRange(_, _, _) => Ascii("LRANGE")
    case Expire(_, _, _) => Ascii("EXPIRE")
    case Multi => Ascii("MULTI")
    case Discard => Ascii("DISCARD")
    case Exec => Ascii("EXEC")
    case Save => Ascii("SAVE")
  }

  function Args(r: Request): seq<Bytes> {
    match r
    case Echo(m) => [m]
    case Set(k, v, Forever) => [k, v]
    case Set(k, v, Px(ms)) => [k, v, Ascii("PX"), Decimal.PrintInt(ms)]
    case Set(k, v, Ex(s)) => [k, v, Ascii("EX"), Decimal.PrintInt(s)]
    case Get(k) => [k]
    case Delete(k) => [k]
    case LPush(k, vs) => [k] + vs
    case RPush(k, vs) => [k] + vs
    case LRange(k, a, z) => [k, Decimal.PrintInt(a), Decimal.PrintInt(z)]
    case Expire(k, ms, None) => [k, Decimal.PrintInt(ms)]
    case Expire(k, ms, Some(o)) => [k, Decimal.PrintInt(ms), o]
    case _ => []
  }

  predicate IsI32(x: int) {
    I32_MIN <= x <= I32_MAX
  }

  /** An option of EXPIRE is one of those it knows. */
  predicate WellTyped(r: Request) {
    r.Expire? && r.option.Some? ==> r.option.value in [S.NX, S.XX, S.GT, S.LT]
  }

  const UNKNOWN_OPTION: Bytes := Ascii("Invalid option in expire command. Only NX, XX, GT, LT are supported.")

  /** What extraction makes of a request. */
  function Extraction(r: Request, now: S.Instant): Extracted {
    if WellTyped(r) then Cmd(Yielded(r, now))
    else Bad(UNKNOWN_OPTION)
  }

  /** The number read back from a printed one: anything beyond 32 bits counts as zero. */
  function Read(n: int): (r: int)
    ensures IsI32(r)
  {
    if IsI32(n) then n else 0
  }

  /** The command the code extracts from a request at `now`, with its 32-bit numbers and products. */
  function Yielded(r: Request, now: S.Instant): Command {
    match r
    case Ping => PING
    case Echo(m) => ECHO(m)
    case Set(k, v, Forever) => SET(k, v, None)
    case Set(k, v, Px(ms)) => SET(k, v, Some(Later(now, Read(ms))))
    case Set(k, v, Ex(s)) => SET(k, v, Some(Later(now, S.Wrap32(Read(s) * 1000))))
    case Get(k) => GET(k)
    case Delete(k) => DELETE(k)
    case LPush(k, vs) => LPUSH(k, vs)
    case RPush(k, vs) => RPUSH(k, vs)
    case LRange(k, a, z) => LRANGE(k, Read(a), Read(z))
    case Expire(k, ms, o) => EXPIRE(k, Later(now, Read(ms)), o)
    case Multi => MULTI
    case Discard => DISCARD
    case Exec => EXEC
    case Save => SAVE
  }

  const NANOS_PER_SECOND: int := 1_000_000_000

  /** The command the client means: the bounds as sent, and a deadline that many seconds or milliseconds after `now`. */
  function Meant(r: Request, now: S.Instant): Command {
    match r
    case Set(k, v, Px(ms)) => SET(k, v, Some(now + S.NANOS_PER_MILLI * ms))
    case Set(k, v, Ex(s)) => SET(k, v, Some(now + NANOS_PER_SECOND * s))
    case LRange(k, a, z) => LRANGE(k, a, z)
    case Expire(k, ms, o) => EXPIRE(k, now + S.NANOS_PER_MILLI * ms, o)
    case _ => Yielded(r, now)
  }

  /** No number is negative where a duration is asked for, and none overflows 32 bits on the way. */
  predicate Kept(r: Request) {
    match r
    case Set(_, _, Px(ms)) => 0 <= ms <= I32_MAX
    case Set(_, _, Ex(s)) => 0 <= s <= I32_MAX / 1000
    case LRange(_, a, z) => IsI32(a) && IsI32(z)
    case Expire(_, ms, _) => 0 <= ms <= I32_MAX
    case _ => true
  }

  /** A duration in milliseconds is kept by the conversion to an unsigned number exactly when it is not negative. */
  lemma LaterMeans(now: S.Instant, ms: int, asked: int)
    requires IsI32(ms) && -1000 * U32_MODULUS <= asked <= 1000 * U32_MODULUS
    ensures Later(now, ms) == now + S.NANOS_PER_MILLI * asked <==> 0 <= ms && asked == ms
  {
  }

  lemma FarLater(now: S.Instant, asked: int)
    requires !IsI32(asked)
    ensures Later(now, 0) != now + S.NANOS_PER_MILLI * asked
  {
  }

  lemma SecondsKept(s: int)
    requires IsI32(s)
    ensures S.Wrap32(s * 1000) == s * 1000 && s >= 0 <==> 0 <= s <= I32_MAX / 1000
  {
  }

  /** The command extracted is the command meant, at every moment, exactly when the numbers are kept. */
  lemma KeptExactly(r: Request, now: S.Instant)
    ensures Yielded(r, now) == Meant(r, now) <==> Kept(r)
  {
    hide Later, S.Wrap32;
    match r
    case Set(_, _, Px(ms)) => MillisKept(now, ms);
    case Expire(_, ms, _) => MillisKept(now, ms);
    case Set(_, _, Ex(s)) =>
      assert NANOS_PER_SECOND * s == S.NANOS_PER_MILLI * (1000 * s);
      if IsI32(s) {
        SecondsKept(s);
        LaterMeans(now, S.Wrap32(s * 1000), 1000 * s);
      } else {
        assert S.Wrap32(0) == 0;
        FarLater(now, 1000 * s);
      }
    case _ =>
  }

  lemma MillisKept(now: S.Instant, ms: int)
    ensures Later(now, Read(ms)) == now + S.NANOS_PER_MILLI * ms <==> 0 <= ms <= I32_MAX
  {
    hide Later;
    if IsI32(ms) {
      LaterMeans(now, ms, ms);
    } else {
      FarLater(now, ms);
    }
  }

  /**
   `EX 2147484`, some 25 days, becomes a deadline in 584 million years, and `EX 4294968`, some 50 days, one
   in 704 milliseconds.
   */
  lemma SecondsOverflow(k: S.Key, v: Bytes, now: S.Instant)
    ensures Yielded(Set(k, v, Ex(2147484)), now) ==
      SET(k, v, Some(now + S.NANOS_PER_MILLI * (USIZE_MODULUS - 2147483296)))
    ensures Yielded(Set(k, v, Ex(4294968)), now) == SET(k, v, Some(now + S.NANOS_PER_MILLI * 704))
  {
  }

  /** Numbers survive `trim` and `parse` exactly when they fit 32 bits. */
  lemma IntRoundTrip(n: int)
    ensures ParseInt(Decimal.PrintInt(n)) == Read(n)
  {
    hide Decimal.ParseSigned, Decimal.PrintInt;
    var s := Decimal.PrintInt(n);
    Decimal.PrintAscii(n);
    PrintNotEmpty(n);
    Decimal.SignedRoundTrip(n, I32_MIN, I32_MAX);
    NoTrim(s);
  }

  lemma PrintNotEmpty(n: int)
    ensures Decimal.PrintInt(n) != []
  {
  }

  lemma NotSpace(c: Bytes)
    requires forall i :: 0 <= i < |c| ==> 43 <= c[i] <= 57
    ensures !Utf8.IsSpace(c)
  {
    assert c != [] ==> c[0] <= 57;
  }

  lemma NoTrim(s: Bytes)
    requires s != [] && forall i :: 0 <= i < |s| ==> 43 <= s[i] <= 57
    ensures TrimEnd(TrimStart(s)) == s
  {
    hide Utf8.IsSpace, Utf8.CharLen;
    NotSpace(s[..Utf8.CharLen(s)]);
    NoTrimEnd(s);
  }

  lemma NoTrimEnd(s: Bytes)
    requires s != [] && forall i :: 0 <= i < |s| ==> 43 <= s[i] <= 57
    ensures TrimEnd(s) == s
  {
    hide Utf8.IsSpace;
    forall n: nat | n <= |s| ensures !SpaceBehind(s, n) {
      NotSpace(s[|s| - n..]);
    }
  }

  lemma {:induction false} TextsOfBulks(vs: seq<Bytes>)
    ensures Texts(Bulks(vs)) == vs
    decreases |vs|
  {
    if vs != [] {
      assert Bulks(vs)[1..] == Bulks(vs[1..]);
      TextsOfBulks(vs[1..]);
    }
  }

  lemma Flags()
    ensures Upper(Ascii("PX")) == Ascii("PX") && Upper(Ascii("EX")) == Ascii("EX") && Ascii("PX") != Ascii("EX")
  {
    assert Ascii("PX")[0] == 80 && Ascii("EX")[0] == 69;
  }

  /** SET with a flag and a number. */
  lemma TimedSet(k: S.Key, v: Bytes, flag: Bytes, n: int, now: S.Instant)
    requires flag == Ascii("PX") || flag == Ascii("EX")
    ensures ParseSet(Bulks([k, v, flag, Decimal.PrintInt(n)]), now) ==
      Cmd(SET(k, v, Some(Later(now, if flag == Ascii("PX") then Read(n) else S.Wrap32(Read(n) * 1000)))))
  {
    hide ParseInt, Decimal.PrintInt, Later, S.Wrap32, Upper, Ascii;
    var args := Bulks([k, v, flag, Decimal.PrintInt(n)]);
    assert args[0] == BulkString(k) && args[1] == BulkString(v) && args[2] == BulkString(flag);
    assert args[3] == BulkString(Decimal.PrintInt(n));
    Flags();
    IntRoundTrip(n);
  }

  /** The flag may be in any mix of cases; any other flag is refused. */
  lemma SpelledSet(k: S.Key, v: Bytes, flag: Bytes, n: int, now: S.Instant)
    ensures var r := ParseSet(Bulks([k, v, flag, Decimal.PrintInt(n)]), now);
      if Upper(flag) == Ascii("EX") then r == Cmd(Yielded(Set(k, v, Ex(n)), now))
      else if Upper(flag) == Ascii("PX") then r == Cmd(Yielded(Set(k, v, Px(n)), now))
      else r == Bad(Ascii("Invalid expiry flag. Only EX and PX are supported."))
  {
    hide ParseInt, Decimal.PrintInt, Later, S.Wrap32, Upper, Ascii, Read;
    var args := Bulks([k, v, flag, Decimal.PrintInt(n)]);
    assert args[0] == BulkString(k) && args[1] == BulkString(v) && args[2] == BulkString(flag);
    assert args[3] == BulkString(Decimal.PrintInt(n));
    Flags();
    IntRoundTrip(n);
  }

  lemma PlainSet(k: S.Key, v: Bytes, now: S.Instant)
    ensures ParseSet(Bulks([k, v]), now) == Cmd(SET(k, v, None))
  {
  }

  lemma SetRequest(k: S.Key, v: Bytes, ttl: Ttl, now: S.Instant)
    ensures ParseSet(Bulks(Args(Set(k, v, ttl))), now) == Cmd(Yielded(Set(k, v, ttl), now))
  {
    hide ParseSet, Decimal.PrintInt, Bulks, Later, S.Wrap32, Ascii, Upper, Read;
    Flags();
    match ttl
    case Forever => PlainSet(k, v, now);
    case Px(ms) => TimedSet(k, v, Ascii("PX"), ms, now);
    case Ex(n) => TimedSet(k, v, Ascii("EX"), n, now);
  }

  lemma ListRequests(k: S.Key, vs: seq<Bytes>)
    ensures var args := Bulks([k] + vs); ArgAt(args, 0) == Text(k) && Texts(args[1..]) == vs
  {
    assert Bulks([k] + vs)[1..] == Bulks(vs);
    TextsOfBulks(vs);
  }

  lemma RangeRequest(k: S.Key, a: int, z: int)
    ensures ParseLRange(Bulks([k, Decimal.PrintInt(a), Decimal.PrintInt(z)])) == Cmd(LRANGE(k, Read(a), Read(z)))
  {
    hide ParseInt, Decimal.PrintInt;
    IntRoundTrip(a);
    IntRoundTrip(z);
  }

  lemma PlainExpire(k: S.Key, ms: int, now: S.Instant)
    ensures ParseExpire(Bulks([k, Decimal.PrintInt(ms)]), now) == Cmd(EXPIRE(k, Later(now, Read(ms)), None))
  {
    hide ParseInt, Decimal.PrintInt, Later, Read;
    IntRoundTrip(ms);
  }

  lemma OptionExpire(k: S.Key, ms: int, o: Bytes, now: S.Instant)
    ensures ParseExpire(Bulks([k, Decimal.PrintInt(ms), o]), now) == Extraction(Expire(k, ms, Some(o)), now)
  {
    hide ParseInt, Decimal.PrintInt, Later, Ascii, Read;
    var args := Bulks([k, Decimal.PrintInt(ms), o]);
    assert ArgAt(args, 0) == Text(k) && ArgAt(args, 1) == Text(Decimal.PrintInt(ms)) && ArgAt(args, 2) == Text(o);
    IntRoundTrip(ms);
  }

  lemma ExpireRequest(k: S.Key, ms: int, o: Option<Bytes>, now: S.Instant)
    ensures ParseExpire(Bulks(Args(Expire(k, ms, o))), now) == Extraction(Expire(k, ms, o), now)
  {
    hide ParseExpire, Decimal.PrintInt, Bulks, Later, Read;
    match o
    case None => PlainExpire(k, ms, now);
    case Some(x) => OptionExpire(k, ms, x, now);
  }

  /** Letters that tell the names of equal length apart. */
  lemma Letters()
    ensures Ascii("SET")[0] == 83 && Ascii("GET")[0] == 71
    ensures Ascii("PING")[0] == 80 && Ascii("ECHO")[0] == 69 && Ascii("EXEC")[0] == 69 && Ascii("SAVE")[0] == 83
    ensures Ascii("ECHO")[1] == 67 && Ascii("EXEC")[1] == 88
    ensures Ascii("LPUSH")[0] == 76 && Ascii("RPUSH")[0] == 82 && Ascii("MULTI")[0] == 77
    ensures Ascii("DELETE")[0] == 68 && Ascii("LRANGE")[0] == 76 && Ascii("EXPIRE")[0] == 69
    ensures Ascii("COMMAND")[0] == 67 && Ascii("DISCARD")[0] == 68
  {
  }

  lemma PlainNames(r: Request, now: S.Instant)
    requires r.Ping? || r.Multi? || r.Discard? || r.Exec? || r.Save? || r.Echo? || r.Get? || r.Delete?
    ensures ParseCommand(Name(r), Bulks(Args(r)), now) == Cmd(Yielded(r, now))
  {
    hide ParseSet, ParseLRange, ParseExpire, Texts, Ascii;
    Letters();
  }

  lemma OtherNames(r: Request, now: S.Instant)
    requires r.Set? || r.LPush? || r.RPush? || r.LRange? || r.Expire?
    ensures ParseCommand(Name(r), Bulks(Args(r)), now) ==
      var args := Bulks(Args(r));
      match r
      case Set(_, _, _) => ParseSet(args, now)
      case LPush(_, _) =>
        OneArg(args, t => LPUSH(t, if args == [] then [] else Texts(args[1..])), "LPUSH command requires an argument.")
      case RPush(_, _) =>
        OneArg(args, t => RPUSH(t, if args == [] then [] else Texts(args[1..])), "RPUSH command requires an argument.")
      case LRange(_, _, _) => ParseLRange(args)
      case _ => ParseExpire(args, now)
  {
    hide ParseSet, ParseLRange, ParseExpire, Texts, OneArg, Args, Bulks, Ascii;
    Letters();
  }

  lemma NamedRequest(r: Request, now: S.Instant)
    ensures ParseCommand(Name(r), Bulks(Args(r)), now) == Extraction(r, now)
  {
    hide ParseCommand, Name, ParseSet, ParseLRange, ParseExpire, Texts, Decimal.PrintInt, Ascii;
    if r.Set? || r.LPush? || r.RPush? || r.LRange? || r.Expire? {
      OtherNames(r, now);
    } else {
      PlainNames(r, now);
    }
    match r
    case Set(k, v, ttl) => SetRequest(k, v, ttl, now);
    case LPush(k, vs) => ListRequests(k, vs);
    case RPush(k, vs) => ListRequests(k, vs);
    case LRange(k, a, z) => RangeRequest(k, a, z);
    case Expire(k, ms, o) => ExpireRequest(k, ms, o, now);
    case _ =>
  }

  /** The frame of a request, its name in any mix of cases, yields exactly that. */
  lemma RequestExtracted(r: Request, name: Bytes, now: S.Instant)
    requires Upper(name) == Name(r)
    ensures ExtractCommand(Array(Bulks([name] + Args(r))), now) == Extraction(r, now)
  {
    hide ParseCommand, Args, Extraction;
    assert Bulks([name] + Args(r))[1..] == Bulks(Args(r));
    NamedRequest(r, now);
  }

  /**
   The frame of a request yields the command meant if and only if an option of EXPIRE is known, no
   duration is negative, none in seconds exceeds 2147483, and no number exceeds 32 bits.
   */
  lemma RequestMeant(r: Request, name: Bytes, now: S.Instant)
    requires Upper(name) == Name(r)
    ensures ExtractCommand(Array(Bulks([name] + Args(r))), now) == Cmd(Meant(r, now)) <==> WellTyped(r) && Kept(r)
  {
    hide ExtractCommand, Args, Yielded, Meant, Kept;
    RequestExtracted(r, name, now);
    KeptExactly(r, now);
  }

  /** SET with a flag in any mix of cases, in a frame: what is extracted, and when it is what was meant. */
  lemma SpelledFlag(k: S.Key, v: Bytes, flag: Bytes, n: int, name: Bytes, now: S.Instant)
    requires Upper(name) == Ascii("SET")
    ensures var e := ExtractCommand(Array(Bulks([name, k, v, flag, Decimal.PrintInt(n)])), now);
      && (Upper(flag) == Ascii("EX") ==> e == Cmd(Yielded(Set(k, v, Ex(n)), now)))
      && (Upper(flag) == Ascii("PX") ==> e == Cmd(Yielded(Set(k, v, Px(n)), now)))
      && (Upper(flag) == Ascii("EX") ==> (e == Cmd(Meant(Set(k, v, Ex(n)), now)) <==> Kept(Set(k, v, Ex(n)))))
      && (Upper(flag) == Ascii("PX") ==> (e == Cmd(Meant(Set(k, v, Px(n)), now)) <==> Kept(Set(k, v, Px(n)))))
      && (Upper(flag) != Ascii("EX") && Upper(flag) != Ascii("PX") ==> e.Bad?)
  {
    hide ParseSet, Yielded, Meant, Kept, Decimal.PrintInt, Ascii, Upper;
    var num := Decimal.PrintInt(n);
    assert Bulks([name, k, v, flag, num])[1..] == Bulks([k, v, flag, num]);
    assert Bulks([name, k, v, flag, num])[0] == BulkString(name);
    Flags();
    NamedSet(Bulks([k, v, flag, num]), now);
    SpelledSet(k, v, flag, n, now);
    KeptExactly(Set(k, v, Ex(n)), now);
    KeptExactly(Set(k, v, Px(n)), now);
  }

  lemma NamedSet(args: seq<RespType>, now: S.Instant)
    ensures ParseCommand(Ascii("SET"), args, now) == ParseSet(args, now)
  {
    hide ParseSet, ParseLRange, ParseExpire, Texts, OneArg, Ascii;
    Letters();
  }
}
