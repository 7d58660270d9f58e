/** A client's encoding of its commands, and that serving the encoding gives the commands back. */
module RoundTrip {
  import opened Wire
  import opened RequestGrammar
  import opened RequestModes
  import opened RedisClient

  function EncodeBulk(a: Bytes): Bytes {
    [DOLLAR] + Decimal(|a|) + CRLF + (a + CRLF)
  }

  function EncodeArgs(args: seq<Bytes>): Bytes {
    if args == [] then [] else EncodeBulk(args[0]) + EncodeArgs(args[1..])
  }

  function Encode(args: seq<Bytes>): Bytes {
    [STAR] + Decimal(|args|) + CRLF + EncodeArgs(args)
  }

  /** Commands sent one after the other without waiting for replies. */
  function Pipeline(cmds: seq<Command>): Bytes {
    if cmds == [] then [] else Encode(cmds[0]) + Pipeline(cmds[1..])
  }

  /** The bytes themselves: "*1\r\n$4\r\nPING\r\n", and each command behind the one before it. */
  lemma EncodeIs(a: Command, b: Command)
    ensures Encode([[80, 73, 78, 71]]) == [42, 49, 13, 10, 36, 52, 13, 10, 80, 73, 78, 71, 13, 10]
    ensures Pipeline([a, b]) == Encode(a) + Encode(b)
  {
    DecimalIs(1);
    DecimalIs(4);
    var ping: Bytes := [80, 73, 78, 71];
    assert EncodeArgs([ping]) == EncodeBulk(ping) by {
      assert [ping][1..] == [];
      assert EncodeBulk(ping) + [] == EncodeBulk(ping);
    }
    assert [a, b][1..] == [b] && [b][1..] == [];
    assert Pipeline([b]) == Encode(b) + [] == Encode(b);
  }

  /** The commands the protocol allows: any bytes, within the limits on count and length. */
  predicate Legal(cfg: Config, args: seq<Bytes>) {
    |args| <= 1048576 && forall i :: 0 <= i < |args| ==> |args[i]| <= cfg.maxBulk
  }

  lemma ReadEncodedNumber(lead: Byte, n: nat, t: Bytes)
    requires lead != CR && lead != NUL && n < INT64_LIMIT
    ensures ReadNumber(lead, [lead] + Decimal(n) + CRLF + t) == Done(n, |Decimal(n)| + 3)
  {
    var u := [lead] + Decimal(n) + CRLF + t;
    var i := |Decimal(n)| + 1;
    assert u[i] == CR;
    assert u[1..i] == Decimal(n);
    LineEndFound(u, i);
    ParseDecimal(n);
  }

  lemma ReadEncodedBulk(cfg: Config, a: Bytes, t: Bytes)
    requires |a| <= cfg.maxBulk < INT64_LIMIT
    ensures ReadBulk(cfg, EncodeBulk(a) + t) == Done(a, |EncodeBulk(a)|)
  {
    var u := EncodeBulk(a) + t;
    var k := |Decimal(|a|)| + 3;
    assert u == [DOLLAR] + Decimal(|a|) + CRLF + (a + CRLF + t);
    ReadEncodedNumber(DOLLAR, |a|, a + CRLF + t);
    assert u[k..k + |a|] == a;
  }

  /** The lexer reads back each argument, whatever follows it. */
  ghost predicate ReadsBack(lx: Lexer, args: seq<Bytes>) {
    forall i: nat, t: Bytes {:trigger EncodeBulk(args[i]) + t} ::
      i < |args| ==> lx.bulk(EncodeBulk(args[i]) + t) == Done(args[i], |EncodeBulk(args[i])|)
  }

  lemma {:induction false} ReadEncodedArgs(lx: Lexer, args: seq<Bytes>, t: Bytes)
    requires ReadsBack(lx, args)
    ensures ReadArgs(lx, |args|, EncodeArgs(args) + t) == Done(args, |EncodeArgs(args)|)
    decreases |args|
  {
    if args != [] {
      var u, e, rest := EncodeArgs(args) + t, EncodeBulk(args[0]), EncodeArgs(args[1..]) + t;
      assert u == e + rest;
      assert u[|e|..] == rest;
      forall i: nat, t': Bytes | i < |args[1..]|
        ensures lx.bulk(EncodeBulk(args[1..][i]) + t') == Done(args[1..][i], |EncodeBulk(args[1..][i])|)
      {
        assert args[1..][i] == args[i + 1];
      }
      ReadEncodedArgs(lx, args[1..], t);
      assert ReadArgs(lx, |args|, u) == Glue(args[0], |e|, ReadArgs(lx, |args| - 1, rest));
      assert [args[0]] + args[1..] == args;
    }
  }

  lemma RespReadsBack(cfg: Config, args: seq<Bytes>)
    requires Legal(cfg, args) && cfg.maxBulk < INT64_LIMIT
    ensures ReadsBack(Resp(cfg), args)
  {
    forall i: nat, t: Bytes | i < |args|
      ensures Resp(cfg).bulk(EncodeBulk(args[i]) + t) == Done(args[i], |EncodeBulk(args[i])|)
    {
      ReadEncodedBulk(cfg, args[i], t);
    }
  }

  lemma ReadCounted(lx: Lexer, h: Bytes, c: Command, e: Bytes, t: Bytes)
    requires h != [] && lx.count(h) == Done(|c|, |h|) && ReadArgs(lx, |c|, e + t) == Done(c, |e|)
    ensures ReadRequest(lx, h + e + t) == Done(c, |h + e|)
  {
    RequestAfterCount(lx, h, |c|, e + t);
    assert h + (e + t) == h + e + t;
  }

  /** One command: its encoding is read back as itself, and exactly its bytes are used. */
  lemma ReadEncoded(cfg: Config, c: Command, t: Bytes)
    requires Legal(cfg, c) && cfg.maxBulk < INT64_LIMIT
    ensures ReadRequest(Resp(cfg), Encode(c) + t) == Done(c, |Encode(c)|)
  {
    var h := [STAR] + Decimal(|c|) + CRLF;
    assert Resp(cfg).count(h) == Done(|c|, |h|) by {
      ReadEncodedNumber(STAR, |c|, []);
      assert h + [] == h;
    }
    assert ReadArgs(Resp(cfg), |c|, EncodeArgs(c) + t) == Done(c, |EncodeArgs(c)|) by {
      RespReadsBack(cfg, c);
      ReadEncodedArgs(Resp(cfg), c, t);
    }
    ReadCounted(Resp(cfg), h, c, EncodeArgs(c), t);
  }

  /** Executing a list of commands directly, in front of a stream t. */
  function Execute(lx: Lexer, cmds: seq<Command>, t: Bytes): Session {
    if cmds == [] then Serve(lx, t)
    else match lx.kind(cmds[0][0])
      case Unregistered => Session([], if Pipeline(cmds[1..]) + t == [] then UnknownCommand else AssertionFailure)
      case Quits => Session([cmds[0]], Closed)
      case Runs => Prepend(cmds[0], Execute(lx, cmds[1..], t))
  }

  /** A request that is read in full is dispatched in front of the bytes after it. */
  lemma ServeOne(lx: Lexer, c: Command, e: Bytes, rest: Bytes)
    requires e != [] && e[0] == STAR && ReadRequest(lx, e + rest) == Done(c, |e|)
    ensures Serve(lx, e + rest) == Dispatch(lx, c, rest)
  {
    assert (e + rest)[|e|..] == rest;
  }

  /** Serving an encoded pipeline is executing its commands and then serving what follows it. */
  lemma {:induction false} ServePipeline(cfg: Config, cmds: seq<Command>, t: Bytes)
    requires cfg.maxBulk < INT64_LIMIT
    requires forall i :: 0 <= i < |cmds| ==> Legal(cfg, cmds[i])
    ensures Serve(Resp(cfg), Pipeline(cmds) + t) == Execute(Resp(cfg), cmds, t)
    decreases |cmds|
  {
    if cmds == [] {
      assert Pipeline(cmds) + t == t;
    } else {
      var rest := Pipeline(cmds[1..]) + t;
      assert Pipeline(cmds) + t == Encode(cmds[0]) + rest;
      ReadEncoded(cfg, cmds[0], rest);
      ServeOne(Resp(cfg), cmds[0], Encode(cmds[0]), rest);
      ServePipeline(cfg, cmds[1..], t);
    }
  }

  /** The position of the first command that is not simply run. */
  function FirstStop(lx: Lexer, cmds: seq<Command>): (q: nat)
    ensures q <= |cmds|
    ensures forall i :: 0 <= i < q ==> lx.kind(cmds[i][0]).Runs?
    ensures q < |cmds| ==> !lx.kind(cmds[q][0]).Runs?
  {
    if cmds == [] || !lx.kind(cmds[0][0]).Runs? then 0 else 1 + FirstStop(lx, cmds[1..])
  }

  /** What executing a list comes to: everything up to and including the first QUIT. */
  ghost predicate Shape(lx: Lexer, cmds: seq<Command>, s: Session, after: Session) {
    var q := FirstStop(lx, cmds);
    if q == |cmds| then s == Session(cmds + after.commands, after.end)
    else if lx.kind(cmds[q][0]).Quits? then s == Session(cmds[..q + 1], Closed)
    else s.commands == cmds[..q] && s.end in {UnknownCommand, AssertionFailure}
  }

  lemma PrependShape(lx: Lexer, cmds: seq<Command>, s: Session, after: Session)
    requires cmds != [] && lx.kind(cmds[0][0]).Runs? && Shape(lx, cmds[1..], s, after)
    ensures Shape(lx, cmds, Prepend(cmds[0], s), after)
  {
    var q := FirstStop(lx, cmds[1..]);
    assert FirstStop(lx, cmds) == q + 1;
    assert cmds == [cmds[0]] + cmds[1..];
    assert cmds[..q + 1] == [cmds[0]] + cmds[1..][..q];
    if q < |cmds[1..]| {
      assert cmds[..q + 2] == [cmds[0]] + cmds[1..][..q + 1];
    } else {
      assert cmds + after.commands == [cmds[0]] + (cmds[1..] + after.commands);
    }
  }

  lemma {:induction false} ExecuteShape(lx: Lexer, cmds: seq<Command>, t: Bytes)
    ensures Shape(lx, cmds, Execute(lx, cmds, t), Serve(lx, t))
    decreases |cmds|
  {
    if cmds == [] {
      assert cmds + Serve(lx, t).commands == Serve(lx, t).commands;
    } else if lx.kind(cmds[0][0]).Runs? {
      ExecuteShape(lx, cmds[1..], t);
      PrependShape(lx, cmds, Execute(lx, cmds[1..], t), Serve(lx, t));
    }
  }

  /**
   Round trip: every pipeline of legal commands over arbitrary bytes is executed in order, up to and including the
   first QUIT; without one, what follows the pipeline is served as if it came first.
   */
  lemma RoundTrips(cfg: Config, cmds: seq<Command>, t: Bytes)
    requires cfg.maxBulk < INT64_LIMIT
    requires forall i :: 0 <= i < |cmds| ==> Legal(cfg, cmds[i])
    ensures Shape(Resp(cfg), cmds, Serve(Resp(cfg), Pipeline(cmds) + t), Serve(Resp(cfg), t))
  {
    ServePipeline(cfg, cmds, t);
    ExecuteShape(Resp(cfg), cmds, t);
  }

  /** The commands up to and including the first QUIT, or up to the first that is not registered. */
  function UpToQuit(lx: Lexer, cmds: seq<Command>): seq<Command> {
    var q := FirstStop(lx, cmds);
    if q < |cmds| && lx.kind(cmds[q][0]).Quits? then cmds[..q + 1] else cmds[..q]
  }

  lemma ShapeCommands(lx: Lexer, cmds: seq<Command>, s: Session, after: Session)
    requires Shape(lx, cmds, s, after) && after.commands == []
    ensures s.commands == UpToQuit(lx, cmds)
  {
    assert cmds + [] == cmds == cmds[..|cmds|];
  }

  /** A stream that is an encoded pipeline has exactly its commands. */
  lemma PipelineCommands(cfg: Config, cmds: seq<Command>)
    requires cfg.maxBulk < INT64_LIMIT
    requires forall i :: 0 <= i < |cmds| ==> Legal(cfg, cmds[i])
    ensures Serve(Resp(cfg), Pipeline(cmds)).commands == UpToQuit(Resp(cfg), cmds)
  {
    var lx := Resp(cfg);
    RoundTrips(cfg, cmds, []);
    assert Pipeline(cmds) + [] == Pipeline(cmds);
    ShapeCommands(lx, cmds, Serve(lx, Pipeline(cmds)), Serve(lx, []));
  }

  /** The bytes of the first n pieces. */
  function Join(pieces: seq<Bytes>, n: nat): Bytes
    requires n <= |pieces|
  {
    if n == 0 then [] else Join(pieces, n - 1) + pieces[n - 1]
  }

  /** Each piece is read from the socket and handled. */
  function ReadAndHandle(pieces: seq<Bytes>, n: nat): seq<Event>
    requires n <= |pieces|
  {
    if n == 0 then [] else ReadAndHandle(pieces, n - 1) + [Chunk(pieces[n - 1]), Handle]
  }

  lemma {:induction false} PiecesArrive(pieces: seq<Bytes>, n: nat)
    requires n <= |pieces|
    ensures var ev := ReadAndHandle(pieces, n); Arrived(ev, |ev|) == Handled(ev, |ev|) == Join(pieces, n)
  {
    if n > 0 {
      PiecesArrive(pieces, n - 1);
      PieceArrives(ReadAndHandle(pieces, n - 1), pieces[n - 1]);
    }
  }

  lemma PieceArrives(events: seq<Event>, p: Bytes)
    ensures var ev, u := events + [Chunk(p), Handle], Arrived(events, |events|);
            Arrived(ev, |ev|) == u + p && Handled(ev, |ev|) == u + p
  {
    var ev, u := events + [Chunk(p)], Arrived(events, |events|);
    ArrivedThen(events, Chunk(p));
    ArrivedThen(ev, Handle);
    assert ev + [Handle] == events + [Chunk(p), Handle];
    assert (u + p) + [] == u + p;
  }

  /** A client that is given the pieces of a stream one after the other executes the commands of the stream. */
  method DrivePieces(cfg: Config, pieces: seq<Bytes>) returns (executed: seq<Command>)
    ensures executed == Serve(Resp(cfg), Join(pieces, |pieces|)).commands
  {
    PiecesArrive(pieces, |pieces|);
    executed := Drive(cfg, ReadAndHandle(pieces, |pieces|));
  }

  /**
   The same through the client itself: however the bytes of the pipeline are cut into chunks, handled and dropped,
   exactly its commands are executed, up to and including the first QUIT.
   */
  method Exchange(cfg: Config, cmds: seq<Command>, events: seq<Event>) returns (executed: seq<Command>)
    requires cfg.maxBulk < INT64_LIMIT
    requires forall i :: 0 <= i < |cmds| ==> Legal(cfg, cmds[i])
    requires Handled(events, |events|) == Pipeline(cmds)
    ensures executed == UpToQuit(Resp(cfg), cmds)
  {
    executed := Drive(cfg, events);
    PipelineCommands(cfg, cmds);
  }
}
