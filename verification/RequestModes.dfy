/**
 Where a half-read stream stands. `Resume` gives every state of the incremental parser a meaning in terms of the
 reference parser, and `Consumes` says that using up some bytes between two states is sound whatever follows them.
 */
module RequestModes {
  import opened Wire
  import opened RequestGrammar

  datatype Mode =
    | Idle                                                       // between requests
    | Collecting(done: seq<Bytes>, left: nat, bulk: int)         // inside a request; bulk is -1 before a length line
    | Ready(args: seq<Bytes>)                                    // a complete request, not yet executed
    | Stuck                                                      // a request with an unknown name was left in argv
    | Shut                                                       // a QUIT was executed

  ghost function Continue(lx: Lexer, done: seq<Bytes>, n: nat, u: Bytes): Session {
    match ReadArgs(lx, n, u)
    case More => Session([], NeedMore)
    case Bad => Session([], ProtocolError)
    case Done(rest, k) => Dispatch(lx, done + rest, u[k..])
  }

  /** What the reference parser makes of u when the state m has been reached before it. */
  ghost function Resume(lx: Lexer, m: Mode, u: Bytes): Session {
    match m
    case Idle => Serve(lx, u)
    case Collecting(done, left, bulk) =>
      if bulk < 0 then Continue(lx, done, left, u)
      else if left == 0 || |u| < bulk + 2 then Session([], NeedMore)
      else Continue(lx, done + [u[..bulk]], left - 1, u[bulk + 2..])
    case Ready(args) => Dispatch(lx, args, u)
    case Stuck => Session([], if u == [] then UnknownCommand else AssertionFailure)
    case Shut => Session([], Closed)
  }

  ghost function After(out: seq<Command>, s: Session): Session {
    Session(out + s.commands, s.end)
  }

  /** Reading p takes a parser of meaning f to one of meaning g and executes out, whatever comes after p. */
  ghost predicate Leads(f: Bytes -> Session, p: Bytes, g: Bytes -> Session, out: seq<Command>) {
    forall t: Bytes {:trigger f(p + t)} :: f(p + t) == After(out, g(t))
  }

  lemma LeadsThen(f: Bytes -> Session, p: Bytes, g: Bytes -> Session, o1: seq<Command>,
                  q: Bytes, h: Bytes -> Session, o2: seq<Command>)
    requires Leads(f, p, g, o1) && Leads(g, q, h, o2)
    ensures Leads(f, p + q, h, o1 + o2)
  {
    forall t: Bytes ensures f((p + q) + t) == After(o1 + o2, h(t)) {
      assert (p + q) + t == p + (q + t);
      assert f(p + (q + t)) == After(o1, g(q + t));
      assert o1 + (o2 + h(t).commands) == (o1 + o2) + h(t).commands;
    }
  }

  ghost function Meaning(lx: Lexer, m: Mode): Bytes -> Session {
    u => Resume(lx, m, u)
  }

  /** From m0, the bytes p lead to m1 and execute out, whatever comes after them. */
  ghost predicate Consumes(lx: Lexer, m0: Mode, p: Bytes, m1: Mode, out: seq<Command>) {
    Leads(Meaning(lx, m0), p, Meaning(lx, m1), out)
  }

  lemma ConsumesNothing(lx: Lexer, m: Mode)
    ensures Consumes(lx, m, [], m, [])
  {
    var f := Meaning(lx, m);
    forall t: Bytes ensures f([] + t) == After([], f(t)) {
      assert [] + t == t;
    }
  }

  lemma ConsumesThen(lx: Lexer, m0: Mode, p: Bytes, m1: Mode, o1: seq<Command>, q: Bytes, m2: Mode, o2: seq<Command>)
    requires Consumes(lx, m0, p, m1, o1) && Consumes(lx, m1, q, m2, o2)
    ensures Consumes(lx, m0, p + q, m2, o1 + o2)
  {
    LeadsThen(Meaning(lx, m0), p, Meaning(lx, m1), o1, q, Meaning(lx, m2), o2);
  }

  /** A silent move of n bytes of u extends what has been consumed. */
  lemma Advance(lx: Lexer, consumed: Bytes, m0: Mode, out: seq<Command>, u: Bytes, n: nat, m1: Mode)
    requires n <= |u|
    requires Consumes(lx, Idle, consumed, m0, out) && Consumes(lx, m0, u[..n], m1, [])
    ensures Consumes(lx, Idle, consumed + u[..n], m1, out)
    ensures consumed + u == (consumed + u[..n]) + u[n..]
  {
    ConsumesThen(lx, Idle, consumed, m0, out, u[..n], m1, []);
    assert out + [] == out;
  }

  /** When nothing is left to execute, what has been executed is what the reference parser finds. */
  lemma Conclude(lx: Lexer, consumed: Bytes, m: Mode, out: seq<Command>, u: Bytes)
    requires Consumes(lx, Idle, consumed, m, out) && Resume(lx, m, u).commands == []
    ensures Serve(lx, consumed + u) == Session(out, Resume(lx, m, u).end)
  {
    var f := Meaning(lx, Idle);
    assert f(consumed + u) == After(out, Meaning(lx, m)(u));
    assert out + [] == out;
  }

  /** The bytes p alone move m0 to m1: nothing is executed. */
  lemma Silent(lx: Lexer, m0: Mode, p: Bytes, m1: Mode)
    requires forall t: Bytes :: Resume(lx, m0, p + t) == Resume(lx, m1, t)
    ensures Consumes(lx, m0, p, m1, [])
  {
    var f, g := Meaning(lx, m0), Meaning(lx, m1);
    forall t: Bytes ensures f(p + t) == After([], g(t)) {
      assert f(p + t) == Resume(lx, m0, p + t);
    }
  }

  // ---------------------------------------------------------------- the moves of the parser

  lemma RequestAfterCount(lx: Lexer, p: Bytes, n: int, t: Bytes)
    requires p != [] && lx.count(p) == Done(n, |p|)
    ensures ReadRequest(lx, p + t) ==
            if n <= 0 then Done([], |p|)
            else (match ReadArgs(lx, n, t)
                  case More => More
                  case Bad => Bad
                  case Done(args, j) => Done(args, |p| + j))
  {
    assert lx.count(p + t) == Done(n, |p|);
    assert (p + t)[|p|..] == t;
  }

  lemma CountMoveAt(lx: Lexer, p: Bytes, n: int, t: Bytes)
    requires p != [] && p[0] == STAR && lx.count(p) == Done(n, |p|)
    ensures Serve(lx, p + t) == if n <= 0 then Dispatch(lx, [], t) else Continue(lx, [], n, t)
  {
    RequestAfterCount(lx, p, n, t);
    match ReadRequest(lx, p + t)
    case Done(args, k) =>
      assert (p + t)[k..] == t[k - |p|..];
      assert [] + args == args;
      assert Serve(lx, p + t) == Dispatch(lx, args, t[k - |p|..]);
    case _ =>
  }

  lemma CountMove(lx: Lexer, p: Bytes, n: int)
    requires p != [] && p[0] == STAR && lx.count(p) == Done(n, |p|)
    ensures Consumes(lx, Idle, p, if n <= 0 then Ready([]) else Collecting([], n, -1), [])
  {
    var m := if n <= 0 then Ready([]) else Collecting([], n, -1);
    forall t: Bytes ensures Resume(lx, Idle, p + t) == Resume(lx, m, t) {
      CountMoveAt(lx, p, n, t);
    }
    Silent(lx, Idle, p, m);
  }

  lemma ContinueGlued(lx: Lexer, done: seq<Bytes>, left: nat, v: Bytes, a: Bytes, k: nat, t: Bytes)
    requires left > 0 && lx.bulk(v) == Done(a, k) && v[k..] == t
    ensures Continue(lx, done, left, v) == Continue(lx, done + [a], left - 1, t)
  {
    var r := ReadArgs(lx, left - 1, t);
    assert ReadArgs(lx, left, v) == Glue(a, k, r);
    if r.Done? {
      assert done + ([a] + r.value) == (done + [a]) + r.value;
      assert v[k + r.size..] == t[r.size..];
    }
  }

  /** p is a complete length line: what comes after it decides the bulk string. */
  ghost predicate AnnouncesBulk(lx: Lexer, p: Bytes, n: nat) {
    forall t: Bytes {:trigger lx.bulk(p + t)} ::
      lx.bulk(p + t) == if n + 2 <= |t| then Done(t[..n], |p| + n + 2) else More
  }

  lemma BulkLenMoveAt(lx: Lexer, done: seq<Bytes>, left: nat, p: Bytes, n: nat, t: Bytes)
    requires left > 0 && AnnouncesBulk(lx, p, n)
    ensures Continue(lx, done, left, p + t) == Resume(lx, Collecting(done, left, n), t)
  {
    var b := lx.bulk(p + t);
    if n + 2 <= |t| {
      assert (p + t)[|p| + n + 2..] == t[n + 2..];
      ContinueGlued(lx, done, left, p + t, t[..n], |p| + n + 2, t[n + 2..]);
    }
  }

  lemma BulkLenMove(lx: Lexer, done: seq<Bytes>, left: nat, p: Bytes, n: nat)
    requires left > 0 && AnnouncesBulk(lx, p, n)
    ensures Consumes(lx, Collecting(done, left, -1), p, Collecting(done, left, n), [])
  {
    var m0, m1 := Collecting(done, left, -1), Collecting(done, left, n);
    forall t: Bytes ensures Resume(lx, m0, p + t) == Resume(lx, m1, t) {
      BulkLenMoveAt(lx, done, left, p, n, t);
    }
    Silent(lx, m0, p, m1);
  }

  lemma BodyMove(lx: Lexer, done: seq<Bytes>, left: nat, n: nat, u: Bytes)
    requires left > 0 && n + 2 <= |u|
    ensures var args := done + [u[..n]];
            Consumes(lx, Collecting(done, left, n), u[..n + 2],
                     if left == 1 then Ready(args) else Collecting(args, left - 1, -1), [])
  {
    var args := done + [u[..n]];
    var m0 := Collecting(done, left, n);
    var m1 := if left == 1 then Ready(args) else Collecting(args, left - 1, -1);
    forall t: Bytes ensures Resume(lx, m0, u[..n + 2] + t) == Resume(lx, m1, t) {
      var v := u[..n + 2] + t;
      assert v[..n] == u[..n];
      assert v[n + 2..] == t;
      if left == 1 {
        assert args + [] == args;
        assert t[0..] == t;
      }
    }
    Silent(lx, m0, u[..n + 2], m1);
  }

  function ModeAfter(lx: Lexer, args: seq<Bytes>): Mode {
    if args == [] then Idle
    else match lx.kind(args[0])
      case Unregistered => Stuck
      case Quits => Shut
      case Runs => Idle
  }

  function OutputOf(lx: Lexer, args: seq<Bytes>): seq<Command> {
    if args == [] || lx.kind(args[0]).Unregistered? then [] else [args]
  }

  lemma DispatchMove(lx: Lexer, args: seq<Bytes>)
    ensures Consumes(lx, Ready(args), [], ModeAfter(lx, args), OutputOf(lx, args))
  {
    var f, g := Meaning(lx, Ready(args)), Meaning(lx, ModeAfter(lx, args));
    forall t: Bytes ensures f([] + t) == After(OutputOf(lx, args), g(t)) {
      assert [] + t == t;
    }
  }

  // ---------------------------------------------------------------- the moves over the protocol's own lines

  /** A count line at the front of u. */
  lemma CountLineMove(cfg: Config, u: Bytes)
    requires u != [] && u[0] == STAR && ReadCount(u).Done?
    ensures var Done(n, k) := ReadCount(u);
            Consumes(Resp(cfg), Idle, u[..k], if n <= 0 then Ready([]) else Collecting([], n, -1), [])
  {
    var Done(n, k) := ReadCount(u);
    ReadNumberLocal(STAR, u);
    CountMove(Resp(cfg), u[..k], n);
  }

  /** A length line at the front of u. */
  lemma LengthLineMove(cfg: Config, done: seq<Bytes>, left: nat, u: Bytes)
    requires left > 0 && ReadBulkLen(cfg, u).Done?
    ensures var Done(n, k) := ReadBulkLen(cfg, u);
            Consumes(Resp(cfg), Collecting(done, left, -1), u[..k], Collecting(done, left, n), [])
  {
    var Done(n, k) := ReadBulkLen(cfg, u);
    var p := u[..k];
    ReadNumberLocal(DOLLAR, u);
    forall t: Bytes ensures ReadBulk(cfg, p + t) == if n + 2 <= |t| then Done(t[..n], k + n + 2) else More {
      ReadBulkLenStable(cfg, p, t);
      if n + 2 <= |t| {
        assert (p + t)[k..k + n] == t[..n];
      }
    }
    BulkLenMove(Resp(cfg), done, left, p, n);
  }
}
