/**
 The reference parser: a recursive-descent reading of a whole byte stream, without a buffer position, a pending
 length or any other state kept between reads. The incremental parser is compared with `Serve`.

 The part above the single lines and bulk strings is written for any `Lexer` that keeps what it has read when more
 bytes arrive; `Resp` is the lexer of the Redis serialization protocol.
 */
module RequestGrammar {
  import opened Wire

  /** What the command table says about a command name. */
  datatype Kind = Unregistered | Quits | Runs

  type Command = c: seq<Bytes> | c != [] witness [[]]

  /** Reading from the front of a stream: `Done` says how many bytes were used. */
  datatype Read<+T> = More | Bad | Done(value: T, size: nat)

  /** More input changes nothing that was read, and never turns a refusal into a success. */
  predicate Stable<T(==)>(r: Read<T>, r': Read<T>) {
    (r.Done? ==> r' == r) && (r.Bad? ==> !r'.Done?)
  }

  predicate Bounded<T>(r: Read<T>, u: Bytes) {
    r.Done? ==> 0 < r.size <= |u|
  }

  datatype RawLexer = Lexer(count: Bytes -> Read<int>, bulk: Bytes -> Read<Bytes>, kind: Bytes -> Kind)

  ghost predicate Lawful(lx: RawLexer) {
    && (forall u: Bytes {:trigger lx.count(u)} :: Bounded(lx.count(u), u))
    && (forall u: Bytes {:trigger lx.bulk(u)} :: Bounded(lx.bulk(u), u))
    && (forall u: Bytes, t: Bytes {:trigger lx.count(u + t)} :: Stable(lx.count(u), lx.count(u + t)))
    && (forall u: Bytes, t: Bytes {:trigger lx.bulk(u + t)} :: Stable(lx.bulk(u), lx.bulk(u + t)))
  }

  type Lexer = lx: RawLexer | Lawful(lx) witness Lexer(_ => More, _ => More, _ => Runs)

  /** A first argument, which took k bytes, and the reading of the others. */
  function Glue(a: Bytes, k: nat, r: Read<seq<Bytes>>): Read<seq<Bytes>> {
    match r
    case More => More
    case Bad => Bad
    case Done(rest, j) => Done([a] + rest, k + j)
  }

  function ReadArgs(lx: Lexer, n: nat, u: Bytes): (r: Read<seq<Bytes>>)
    ensures r.Done? ==> r.size <= |u| && |r.value| == n
  {
    if n == 0 then Done([], 0)
    else match lx.bulk(u)
      case More => More
      case Bad => Bad
      case Done(a, k) => Glue(a, k, ReadArgs(lx, n - 1, u[k..]))
  }

  /** One request: the count line and as many bulk strings; a count of zero or less is a request without arguments. */
  function ReadRequest(lx: Lexer, u: Bytes): (r: Read<seq<Bytes>>)
    ensures Bounded(r, u)
  {
    match lx.count(u)
    case More => More
    case Bad => Bad
    case Done(n, k) =>
      if n <= 0 then Done([], k)
      else match ReadArgs(lx, n, u[k..])
        case More => More
        case Bad => Bad
        case Done(args, j) => Done(args, k + j)
  }

  /** How the service of a stream stands after its last byte. */
  datatype End =
    | NeedMore
    | ProtocolError
    | Closed            // a QUIT was executed
    | InlineRequest     // a request that does not start with '*'
    | UnknownCommand    // the last complete request names no command
    | AssertionFailure  // ... and was followed by more bytes

  datatype Session = Session(commands: seq<Command>, end: End)

  function Prepend(c: Command, s: Session): Session {
    Session([c] + s.commands, s.end)
  }

  /** What the commands of the stream u are, and how it ends. */
  function Serve(lx: Lexer, u: Bytes): Session
    decreases |u|, 0
  {
    if u == [] then Session([], NeedMore)
    else if u[0] != STAR then Session([], InlineRequest)
    else match ReadRequest(lx, u)
      case More => Session([], NeedMore)
      case Bad => Session([], ProtocolError)
      case Done(args, k) => Dispatch(lx, args, u[k..])
  }

  /** Runs one complete request and serves what follows it. */
  function Dispatch(lx: Lexer, args: seq<Bytes>, u: Bytes): Session
    decreases |u|, 1
  {
    if args == [] then Serve(lx, u)
    else match lx.kind(args[0])
      case Unregistered => Session([], if u == [] then UnknownCommand else AssertionFailure)
      case Quits => Session([args], Closed)
      case Runs => Prepend(args, Serve(lx, u))
  }

  // ---------------------------------------------------------------- more input

  lemma {:induction false} ReadArgsStable(lx: Lexer, n: nat, u: Bytes, t: Bytes)
    ensures Stable(ReadArgs(lx, n, u), ReadArgs(lx, n, u + t))
  {
    if n > 0 {
      match lx.bulk(u)
      case Done(a, k) =>
        var v := u[k..];
        assert lx.bulk(u + t) == Done(a, k);
        assert (u + t)[k..] == v + t;
        ReadArgsStable(lx, n - 1, v, t);
      case _ =>
    }
  }

  lemma ReadRequestStable(lx: Lexer, u: Bytes, t: Bytes)
    ensures Stable(ReadRequest(lx, u), ReadRequest(lx, u + t))
  {
    var h := lx.count(u);
    assert Stable(h, lx.count(u + t));
    if h.Done? && h.value > 0 {
      assert (u + t)[h.size..] == u[h.size..] + t;
      ReadArgsStable(lx, h.value, u[h.size..], t);
    }
  }

  /**
   How the session b of a longer stream relates to the session a of a prefix. More input only adds commands at the
   end. Once a stream is refused, closed or out of the model it adds none: a protocol error, a QUIT, an inline request
   and an unknown command are all absorbing. (A refused header that was too long may still get its '\r', and is then
   a complete line for a moment only: that is why `NeedMore` may follow `ProtocolError`.)
   */
  predicate Extends(a: Session, b: Session, more: bool) {
    && a.commands <= b.commands
    && (a.end != NeedMore ==> b.commands == a.commands)
    && (a.end in {Closed, InlineRequest, AssertionFailure} ==> b.end == a.end)
    && (a.end == ProtocolError ==> b.end in {ProtocolError, NeedMore})
    && (a.end == UnknownCommand && more ==> b.end == AssertionFailure)
  }

  lemma {:induction false} ServeExtends(lx: Lexer, u: Bytes, t: Bytes)
    ensures Extends(Serve(lx, u), Serve(lx, u + t), t != [])
    decreases |u|, 0
  {
    if u != [] && u[0] == STAR {
      ReadRequestStable(lx, u, t);
      match ReadRequest(lx, u)
      case Done(args, k) =>
        assert (u + t)[k..] == u[k..] + t;
        DispatchExtends(lx, args, u[k..], t);
      case _ =>
    }
  }

  lemma {:induction false} DispatchExtends(lx: Lexer, args: seq<Bytes>, u: Bytes, t: Bytes)
    ensures Extends(Dispatch(lx, args, u), Dispatch(lx, args, u + t), t != [])
    decreases |u|, 1
  {
    var a, b := Serve(lx, u), Serve(lx, u + t);
    assert Extends(a, b, t != []) by { ServeExtends(lx, u, t); }
    if args != [] && lx.kind(args[0]).Runs? {
      PrependExtends(args, a, b, t != []);
    }
  }

  lemma PrependExtends(c: Command, a: Session, b: Session, more: bool)
    requires Extends(a, b, more)
    ensures Extends(Prepend(c, a), Prepend(c, b), more)
  {
  }

  // ---------------------------------------------------------------- the lines and bulk strings of the protocol

  const INLINE_MAX: nat := 1024 * 64
  const MAX_ARGS: nat := 1024 * 1024

  /** `kind` is the command table; `bigArg` is PROTO_MBULK_BIG_ARG, which no result may depend on. */
  datatype Config = Config(maxBulk: nat, bigArg: nat, kind: Bytes -> Kind)

  /** A header line `<lead><number>\r` and one unchecked byte. */
  function ReadNumber(lead: Byte, u: Bytes): (r: Read<int>)
    requires lead != CR
    ensures Bounded(r, u)
  {
    match LineEnd(u)
    case None => if |u| > INLINE_MAX then Bad else More
    case Some(i) =>
      if i + 2 > |u| then More
      else if u[0] != lead then Bad
      else match ParseInt64(u[1..i])
        case None => Bad
        case Some(n) => Done(n, i + 2)
  }

  function ReadCount(u: Bytes): (r: Read<int>)
    ensures Bounded(r, u)
  {
    var r := ReadNumber(STAR, u);
    if r.Done? && r.value > MAX_ARGS then Bad else r
  }

  function ReadBulkLen(cfg: Config, u: Bytes): (r: Read<nat>)
    ensures Bounded(r, u)
  {
    match ReadNumber(DOLLAR, u)
    case More => More
    case Bad => Bad
    case Done(n, k) => if n < 0 || n > cfg.maxBulk then Bad else Done(n, k)
  }

  /** A bulk string: the length line, that many bytes, and two unchecked ones. */
  function ReadBulk(cfg: Config, u: Bytes): (r: Read<Bytes>)
    ensures Bounded(r, u)
  {
    match ReadBulkLen(cfg, u)
    case More => More
    case Bad => Bad
    case Done(n, k) => if |u| < k + n + 2 then More else Done(u[k..k + n], k + n + 2)
  }

  lemma ReadNumberStable(lead: Byte, u: Bytes, t: Bytes)
    requires lead != CR
    ensures Stable(ReadNumber(lead, u), ReadNumber(lead, u + t))
  {
    LineEndStable(u, t);
    match LineEnd(u)
    case Some(i) =>
      if i > 0 { assert (u + t)[1..i] == u[1..i]; }
    case None =>
      if |u| > INLINE_MAX && LineEnd(u + t).Some? {
        LongIsNoNumber((u + t)[1..LineEnd(u + t).value]);
      }
  }

  /** What was read depends only on the bytes that were used. */
  lemma ReadNumberLocal(lead: Byte, u: Bytes)
    requires lead != CR && ReadNumber(lead, u).Done?
    ensures ReadNumber(lead, u[..ReadNumber(lead, u).size]) == ReadNumber(lead, u)
  {
    var i := LineEnd(u).value;
    LineEndFound(u, i);
    LineEndFound(u[..i + 2], i);
    assert u[..i + 2][1..i] == u[1..i];
  }

  lemma ReadBulkLenStable(cfg: Config, u: Bytes, t: Bytes)
    ensures Stable(ReadBulkLen(cfg, u), ReadBulkLen(cfg, u + t))
  {
    ReadNumberStable(DOLLAR, u, t);
  }

  lemma ReadBulkStable(cfg: Config, u: Bytes, t: Bytes)
    ensures Stable(ReadBulk(cfg, u), ReadBulk(cfg, u + t))
  {
    ReadBulkLenStable(cfg, u, t);
    match ReadBulkLen(cfg, u)
    case Done(n, k) =>
      if k + n + 2 <= |u| { assert (u + t)[k..k + n] == u[k..k + n]; }
    case _ =>
  }

  lemma RespIsLawful(cfg: Config)
    ensures Lawful(Lexer(ReadCount, u => ReadBulk(cfg, u), cfg.kind))
  {
    forall u: Bytes, t: Bytes
      ensures Stable(ReadCount(u), ReadCount(u + t)) && Stable(ReadBulk(cfg, u), ReadBulk(cfg, u + t))
    {
      ReadNumberStable(STAR, u, t);
      ReadBulkStable(cfg, u, t);
    }
  }

  /** The Redis serialization protocol, with the limits and the command table of cfg. */
  function Resp(cfg: Config): Lexer {
    RespIsLawful(cfg);
    Lexer(ReadCount, u => ReadBulk(cfg, u), cfg.kind)
  }
}
