/** Commands and their extraction from parsed frames. */
module Commands {
  import opened ByteStrings
  import opened RespTypes
  import S = Store
  import Decimal
  import Utf8

  datatype Command =
    | PING
    | ECHO(msg: Bytes)
    | SET(key: S.Key, value: Bytes, expiresAt: Option<S.Instant>)
    | GET(key: S.Key)
    | DELETE(key: S.Key)
    | LPUSH(key: S.Key, vals: seq<Bytes>)
    | RPUSH(key: S.Key, vals: seq<Bytes>)
    | LRANGE(key: S.Key, start: int, stop: int)
    | EXPIRE(key: S.Key, at: S.Instant, option: Option<Bytes>)
    | MULTI
    | DISCARD
    | EXEC
    | SAVE

  /** `Crash` stands for the panic on a missing argument. */
  datatype Extracted = Cmd(cmd: Command) | Bad(msg: Bytes) | Crash

  datatype Arg = Missing | NotBulk | Text(text: Bytes)

  function ArgAt(args: seq<RespType>, i: nat): Arg {
    if i >= |args| then Missing else if args[i].BulkString? then Text(args[i].text) else NotBulk
  }

  /** The texts of the bulk strings among the arguments. */
  function Texts(args: seq<RespType>): seq<Bytes> {
    if args == [] then []
    else (if args[0].BulkString? then [args[0].text] else []) + Texts(args[1..])
  }

  function TrimStart(s: Bytes): Bytes
    decreases |s|
  {
    if Utf8.SpaceAhead(s) && Utf8.CharLen(s) > 0 then TrimStart(s[Utf8.CharLen(s)..]) else s
  }

  predicate SpaceBehind(s: Bytes, n: nat) {
    n <= |s| && Utf8.IsSpace(s[|s| - n..])
  }

  function TrimEnd(s: Bytes): Bytes
    decreases |s|
  {
    if SpaceBehind(s, 1) then TrimEnd(s[..|s| - 1])
    else if SpaceBehind(s, 2) then TrimEnd(s[..|s| - 2])
    else if SpaceBehind(s, 3) then TrimEnd(s[..|s| - 3])
    else s
  }

  /** `parse_int`: anything that is not a 32-bit number counts as zero. */
  function ParseInt(s: Bytes): (r: int)
    ensures I32_MIN <= r <= I32_MAX
  {
    match Decimal.ParseSigned(TrimEnd(TrimStart(s)), I32_MIN, I32_MAX)
    case Some(n) => n
    case None => 0
  }

  /** `Instant::now() + Duration::from_millis(ms as u64)` for an `i32`, which is sign-extended. */
  function Later(now: S.Instant, ms: int): S.Instant {
    now + S.NANOS_PER_MILLI * (if ms < 0 then ms + USIZE_MODULUS else ms)
  }

  const BAD_FORMAT: Bytes := Ascii("Invalid command format.")

  function OneArg(args: seq<RespType>, make: Bytes -> Command, complaint: string): Extracted {
    match ArgAt(args, 0)
    case Missing => Crash
    case NotBulk => Bad(Ascii(complaint))
    case Text(t) => Cmd(make(t))
  }

  function ParseSet(args: seq<RespType>, now: S.Instant): Extracted {
    if |args| < 2 then Bad(Ascii("SET command requires two arguments."))
    else if !args[0].BulkString? || !args[1].BulkString? then Bad(Ascii("SET arguments must be bulk strings."))
    else if |args| < 4 then Cmd(SET(args[0].text, args[1].text, None))
    else if !args[2].BulkString? || !args[3].BulkString? then
      Bad(Ascii("Invalid SET command format for expiry. Expected EX or PX followed by expiry time."))
    else
      var flag, n := Upper(args[2].text), ParseInt(args[3].text);
      if flag == Ascii("EX") then Cmd(SET(args[0].text, args[1].text, Some(Later(now, S.Wrap32(n * 1000)))))
      else if flag == Ascii("PX") then Cmd(SET(args[0].text, args[1].text, Some(Later(now, n))))
      else Bad(Ascii("Invalid expiry flag. Only EX and PX are supported."))
  }

  function ParseLRange(args: seq<RespType>): Extracted {
    if |args| < 3 then Crash
    else match (ArgAt(args, 0), ArgAt(args, 1), ArgAt(args, 2))
         case (Text(key), Text(start), Text(stop)) => Cmd(LRANGE(key, ParseInt(start), ParseInt(stop)))
         case _ => Bad(Ascii("LRANGE command requires an argument."))
  }

  function ParseExpire(args: seq<RespType>, now: S.Instant): Extracted {
    if |args| < 2 then Crash
    else match (ArgAt(args, 0), ArgAt(args, 1), ArgAt(args, 2))
         case (Text(key), Text(ms), Missing) => Cmd(EXPIRE(key, Later(now, ParseInt(ms)), None))
         case (Text(key), Text(ms), Text(o)) =>
           if o == S.NX || o == S.XX || o == S.GT || o == S.LT then Cmd(EXPIRE(key, Later(now, ParseInt(ms)), Some(o)))
           else Bad(Ascii("Invalid option in expire command. Only NX, XX, GT, LT are supported."))
         case (Text(_), Text(_), NotBulk) =>
           Bad(Ascii("Invalid option format in expire command. Expected a bulk string."))
         case _ => Bad(Ascii("EXPIRE command requires an argument."))
  }

  /** `parse_command`; `now` is the clock reading a relative deadline is added to. */
  function ParseCommand(name: Bytes, args: seq<RespType>, now: S.Instant): Extracted {
    if name == Ascii("PING") || name == Ascii("COMMAND") then Cmd(PING)
    else if name == Ascii("ECHO") then OneArg(args, t => ECHO(t), "ECHO command requires an argument.")
    else if name == Ascii("SET") then ParseSet(args, now)
    else if name == Ascii("GET") then OneArg(args, t => GET(t), "GET command requires an argument.")
    else if name == Ascii("DELETE") then OneArg(args, t => DELETE(t), "DELETE command requires an argument.")
    else if name == Ascii("LPUSH") then
      OneArg(args, t => LPUSH(t, if args == [] then [] else Texts(args[1..])), "LPUSH command requires an argument.")
    else if name == Ascii("RPUSH") then
      OneArg(args, t => RPUSH(t, if args == [] then [] else Texts(args[1..])), "RPUSH command requires an argument.")
    else if name == Ascii("LRANGE") then ParseLRange(args)
    else if name == Ascii("EXPIRE") then ParseExpire(args, now)
    else if name == Ascii("MULTI") then Cmd(MULTI)
    else if name == Ascii("DISCARD") then Cmd(DISCARD)
    else if name == Ascii("EXEC") then Cmd(EXEC)
    else if name == Ascii("SAVE") then Cmd(SAVE)
    else Bad(Ascii("Unknown command: ") + name)
  }

  /** `extract_command`. */
  function ExtractCommand(frame: RespType, now: S.Instant): Extracted {
    match frame
    case Array(items) =>
      if items == [] || !items[0].BulkString? then Bad(BAD_FORMAT)
      else ParseCommand(Upper(items[0].text), items[1..], now)
    case _ => Bad(BAD_FORMAT)
  }
}
